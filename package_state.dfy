/** The package state registry of lib/package_state.c: a table-driven codec
    between lifecycle states and their tokens, get/set of a record's `state`
    field, the strict query wrappers, and the read-modify-write transaction
    `xbps_set_pkg_state_installed` over the registry document. */
module PackageState {
  import opened Common

  // errno values (Linux numbering)
  const ENOENT: int := 2
  const EINVAL: int := 22

  // pkg_state_t values, numbered in table order; 0 is "unknown"
  const UNPACKED: int := 1
  const INSTALLED: int := 2
  const BROKEN: int := 3
  const CONFIG_FILES: int := 4
  const NOT_INSTALLED: int := 5
  const HALF_UNPACKED: int := 6

  /** One row of the `states` table. */
  datatype StateName = StateName(token: string, number: int)

  /** The `states` table without its `{NULL, 0}` sentinel: running off the
      end of this sequence is reaching the sentinel. */
  const States: seq<StateName> := [
    StateName("unpacked", UNPACKED),
    StateName("installed", INSTALLED),
    StateName("broken", BROKEN),
    StateName("config-files", CONFIG_FILES),
    StateName("not-installed", NOT_INSTALLED),
    StateName("half-unpacked", HALF_UNPACKED)
  ]

  /** The table is a bijection between six distinct tokens and six distinct
      nonzero numbers. */
  lemma TableIsInjective()
    ensures forall i :: 0 <= i < |States| ==> States[i].number != 0
    ensures forall i, j :: 0 <= i < j < |States| ==> States[i].token != States[j].token
    ensures forall i, j :: 0 <= i < j < |States| ==> States[i].number != States[j].number
  {
  }

  // ---------------------------------------------------------------- codec

  /** The scan of `set_new_state` from row `i`: the token of `state`, or None
      when the sentinel is reached first. */
  function TokenFrom(state: int, i: nat): (r: Option<string>)
    requires i <= |States|
    ensures r.Some? <==> exists j :: i <= j < |States| && States[j].number == state
    ensures r.Some? ==> exists j :: i <= j < |States| && States[j] == StateName(r.value, state)
    decreases |States| - i
  {
    if i == |States| then None
    else if States[i].number == state then Some(States[i].token)
    else TokenFrom(state, i + 1)
  }

  /** Encoding a state: its token, or None for any number not in the table. */
  function Encode(state: int): (r: Option<string>)
  {
    TokenFrom(state, 0)
  }

  /** The scan of `get_state` from row `i`: the number of `token`, or the
      sentinel's 0 when no row matches. */
  function NumberFrom(token: string, i: nat): (n: int)
    requires i <= |States|
    ensures n != 0 <==> exists j :: i <= j < |States| && States[j].token == token
    ensures n != 0 ==> exists j :: i <= j < |States| && States[j] == StateName(token, n)
    decreases |States| - i
  {
    TableIsInjective();
    if i == |States| then 0
    else if States[i].token == token then States[i].number
    else NumberFrom(token, i + 1)
  }

  /** Decoding a possibly absent `state` value; never fails, 0 means unknown. */
  function Decode(token: Option<string>): (n: int)
    ensures token.None? ==> n == 0
  {
    if token.None? then 0 else NumberFrom(token.value, 0)
  }

  /** Decode inverts Encode on every state of the table. */
  lemma DecodeEncode(state: int)
    requires Encode(state).Some?
    ensures Decode(Some(Encode(state).value)) == state
  {
    var t := Encode(state).value;
    var j :| 0 <= j < |States| && States[j] == StateName(t, state);
    var n := Decode(Some(t));
    TableIsInjective();
    var k :| 0 <= k < |States| && States[k] == StateName(t, n);
    assert j == k;
  }

  /** Encode inverts Decode on every token of the table. */
  lemma EncodeDecode(token: string)
    requires Decode(Some(token)) != 0
    ensures Encode(Decode(Some(token))) == Some(token)
  {
    var n := Decode(Some(token));
    var k :| 0 <= k < |States| && States[k] == StateName(token, n);
    var t := Encode(n).value;
    TableIsInjective();
    var j :| 0 <= j < |States| && States[j] == StateName(t, n);
    assert j == k;
  }

  /** The six states are exactly the encodable numbers; 0 is not one of them. */
  lemma EncodableStates(state: int)
    ensures Encode(state).Some? <==> 1 <= state <= 6
  {
    if 1 <= state <= 6 {
      assert States[state - 1].number == state;
    }
  }

  // -------------------------------------------------------------- records

  /** A package dictionary (`prop_dictionary_t`) holding string values. */
  class Record {
    var fields: map<string, string>

    constructor (fields: map<string, string>)
      ensures this.fields == fields
    {
      this.fields := fields;
    }
  }

  /** The `state` value of a dictionary, if it has one. */
  function StateField(fields: map<string, string>): Option<string>
  {
    if "state" in fields then Some(fields["state"]) else None
  }

  /** `get_state`: the decoded `state` field, 0 when absent or unknown. */
  function GetState(rec: Record): (n: int)
    reads rec
    ensures n == 0 <==> "state" !in rec.fields || forall j :: 0 <= j < |States| ==> States[j].token != rec.fields["state"]
    ensures n != 0 ==> "state" in rec.fields && StateName(rec.fields["state"], n) in States
  {
    Decode(StateField(rec.fields))
  }

  /** `set_new_state`: write the token of `state`; -1 and no change when the
      state is not in the table. */
  method SetNewState(rec: Record, state: int) returns (rv: int)
    modifies rec
    ensures rv == 0 <==> Encode(state).Some?
    ensures rv != 0 ==> rv == -1 && rec.fields == old(rec.fields)
    ensures rv == 0 ==> rec.fields == old(rec.fields)["state" := Encode(state).value]
    ensures rv == 0 ==> GetState(rec) == state
  {
    var token := Encode(state);
    if token.None? {
      return -1;
    }
    rec.fields := rec.fields["state" := token.value];
    DecodeEncode(state);
    rv := 0;
  }

  /** `xbps_set_pkg_state_dictionary`: the public entry to `set_new_state`. */
  method SetPkgStateDictionary(rec: Record, state: int) returns (rv: int)
    modifies rec
    ensures rv == 0 <==> 1 <= state <= 6
    ensures rv != 0 ==> rv == -1 && rec.fields == old(rec.fields)
    ensures rv == 0 ==> rec.fields.Keys == old(rec.fields).Keys + {"state"}
    ensures rv == 0 ==> GetState(rec) == state
    ensures forall k :: k in old(rec.fields) && k != "state" ==> rec.fields[k] == old(rec.fields)[k]
  {
    EncodableStates(state);
    rv := SetNewState(rec, state);
  }

  /** `xbps_pkg_state_dictionary`: the state of a record, EINVAL when it is
      unknown. `state` is the value stored through the out-pointer. */
  method PkgStateDictionary(rec: Record) returns (rv: int, state: int)
    ensures state == GetState(rec)
    ensures rv == EINVAL <==> state == 0
    ensures rv == 0 <==> state != 0
    ensures rv == 0 ==> 1 <= state <= 6
  {
    state := GetState(rec);
    if state != 0 {
      var k :| 0 <= k < |States| && States[k] == StateName(rec.fields["state"], state);
      assert States[k].number == k + 1;
    }
    if state == 0 {
      return EINVAL, state;
    }
    rv := 0;
  }

  /** `xbps_pkg_state_installed`: look the package up in the installed store
      (`lookup` stands for `xbps_find_pkg_dict_installed`) and decode its state.
      `stateIn` is the caller's variable, left untouched on ENOENT. */
  method PkgStateInstalled(pkgname: string, lookup: string -> Option<map<string, string>>, stateIn: int)
    returns (rv: int, state: int)
    ensures lookup(pkgname).None? ==> rv == ENOENT && state == stateIn
    ensures lookup(pkgname).Some? ==> state == Decode(StateField(lookup(pkgname).value))
    ensures lookup(pkgname).Some? && state == 0 ==> rv == EINVAL
    ensures lookup(pkgname).Some? && state != 0 ==> rv == 0 && Encode(state) == StateField(lookup(pkgname).value)
  {
    var found := lookup(pkgname);
    if found.None? {
      return ENOENT, stateIn;
    }
    state := Decode(StateField(found.value));
    if state == 0 {
      return EINVAL, state;
    }
    EncodeDecode(found.value["state"]);
    rv := 0;
  }

  // ------------------------------------------------------------ documents

  /** A registry document as a value: the `packages` array (absent or a
      sequence of package dictionaries). Other top-level keys play no part. */
  datatype DocValue = DocValue(packages: Option<seq<map<string, string>>>)

  /** The record's `pkgname` is `name`. */
  predicate HasName(m: map<string, string>, name: string)
  {
    "pkgname" in m && m["pkgname"] == name
  }

  /** First-match linear scan by `pkgname`, starting at index `i`. */
  function FindFrom(ps: seq<map<string, string>>, name: string, i: nat): (r: Option<nat>)
    requires i <= |ps|
    ensures r.Some? ==> i <= r.value < |ps| && HasName(ps[r.value], name)
    ensures r.Some? ==> forall j :: i <= j < r.value ==> !HasName(ps[j], name)
    ensures r.None? ==> forall j :: i <= j < |ps| ==> !HasName(ps[j], name)
    decreases |ps| - i
  {
    if i == |ps| then None
    else if HasName(ps[i], name) then Some(i)
    else FindFrom(ps, name, i + 1)
  }

  /** `xbps_find_pkg_in_dict_by_name` on a document value: the index of the
      first record named `name`; an absent `packages` array holds nothing. */
  function FindByName(doc: DocValue, name: string): (r: Option<nat>)
  {
    if doc.packages.None? then None else FindFrom(doc.packages.value, name, 0)
  }

  /** The dictionaries of a sequence of records, in order. */
  function FieldsOf(rs: seq<Record>): (ms: seq<map<string, string>>)
    reads rs
    ensures |ms| == |rs|
    ensures forall j :: 0 <= j < |rs| ==> ms[j] == rs[j].fields
  {
    if rs == [] then [] else FieldsOf(rs[..|rs| - 1]) + [rs[|rs| - 1].fields]
  }

  lemma FieldsOfSnoc(rs: seq<Record>, r: Record)
    ensures FieldsOf(rs + [r]) == FieldsOf(rs) + [r.fields]
  {
    assert (rs + [r])[..|rs|] == rs;
  }

  /** No record occurs twice. */
  ghost predicate Distinct(rs: seq<Record>)
  {
    forall i, j :: 0 <= i < j < |rs| ==> rs[i] != rs[j]
  }

  lemma DistinctSnoc(rs: seq<Record>, r: Record)
    requires Distinct(rs) && r !in rs
    ensures Distinct(rs + [r])
  {
  }

  /** The in-memory registry dictionary; its `packages` array holds records by
      reference, so a record found in it is updated in place. */
  class Document {
    var packages: Option<seq<Record>>

    constructor Empty()
      ensures packages == None
    {
      packages := None;
    }

    /** The records the document holds, in array order. */
    function Records(): seq<Record>
      reads this
    {
      if packages.None? then [] else packages.value
    }

    /** No record occurs twice in the array. */
    ghost predicate Valid()
      reads this
    {
      packages.Some? ==> Distinct(packages.value)
    }

    /** The document as it would be externalized. */
    function View(): DocValue
      reads this, Records()
    {
      if packages.None? then DocValue(None) else DocValue(Some(FieldsOf(packages.value)))
    }
  }

  /** `prop_dictionary_internalize_from_zfile` after a successful load: a fresh
      document whose records are fresh objects. */
  method Internalize(v: DocValue) returns (d: Document)
    ensures fresh(d) && d.Valid() && d.View() == v
    ensures forall r :: r in d.Records() ==> fresh(r)
  {
    d := new Document.Empty();
    if v.packages.None? {
      return;
    }
    var ms := v.packages.value;
    var rs: seq<Record> := [];
    var i := 0;
    while i < |ms|
      invariant 0 <= i <= |ms| && |rs| == i
      invariant forall r :: r in rs ==> fresh(r)
      invariant forall a, b :: 0 <= a < b < |rs| ==> rs[a] != rs[b]
      invariant FieldsOf(rs) == ms[..i]
    {
      var r := new Record(ms[i]);
      assert (rs + [r])[..|rs|] == rs;
      assert ms[..i + 1] == ms[..i] + [ms[i]];
      rs := rs + [r];
      i := i + 1;
    }
    assert ms[..i] == ms;
    d.packages := Some(rs);
  }

  /** The record named `name`, by reference, or null. */
  method FindPkgInDictByName(d: Document, name: string) returns (found: Record?)
    ensures found == null <==> FindByName(d.View(), name).None?
    ensures found != null ==> d.packages.Some? && found == d.packages.value[FindByName(d.View(), name).value]
  {
    if d.packages.None? {
      return null;
    }
    var rs := d.packages.value;
    ghost var ms := FieldsOf(rs);
    var i := 0;
    while i < |rs|
      invariant 0 <= i <= |rs|
      invariant FindFrom(ms, name, 0) == FindFrom(ms, name, i)
    {
      if "pkgname" in rs[i].fields && rs[i].fields["pkgname"] == name {
        return rs[i];
      }
      i := i + 1;
    }
    return null;
  }

  /** `set_pkg_objs` on a fresh dictionary: `pkgname`, and `version` and
      `pkgver` only when given. */
  function PkgObjs(pkgname: string, version: Option<string>, pkgver: Option<string>): (m: map<string, string>)
    ensures HasName(m, pkgname)
    ensures "version" in m <==> version.Some?
    ensures "pkgver" in m <==> pkgver.Some?
    ensures version.Some? ==> m["version"] == version.value
    ensures pkgver.Some? ==> m["pkgver"] == pkgver.value
    ensures m.Keys <= {"pkgname", "version", "pkgver"}
  {
    var m := map["pkgname" := pkgname];
    var m := if version.Some? then m["version" := version.value] else m;
    if pkgver.Some? then m["pkgver" := pkgver.value] else m
  }

  /** `set_pkg_objs`. */
  method SetPkgObjs(rec: Record, pkgname: string, version: Option<string>, pkgver: Option<string>)
    requires rec.fields == map[]
    modifies rec
    ensures rec.fields == PkgObjs(pkgname, version, pkgver)
  {
    rec.fields := rec.fields["pkgname" := pkgname];
    if version.Some? {
      rec.fields := rec.fields["version" := version.value];
    }
    if pkgver.Some? {
      rec.fields := rec.fields["pkgver" := pkgver.value];
    }
  }

  // ----------------------------------------------------------- transaction

  /** Outcome of the in-memory part of the transaction. */
  datatype Update = Updated(doc: DocValue) | Failed(rv: int)

  /** What the transaction does to the loaded document (None: loading
      failed), before anything touches the disk. `findErrno` is errno after a
      lookup that found nothing. A failure carries a non-zero code; a success
      needs a state with a token and leaves a non-empty `packages` array. */
  function ApplyState(load: Option<DocValue>, findErrno: int, pkgname: string,
                      version: Option<string>, pkgver: Option<string>, state: int): (r: Update)
    ensures r.Failed? ==> r.rv != 0
    ensures r.Updated? ==> Encode(state).Some? && r.doc.packages.Some? && r.doc.packages.value != []
  {
    var token := Encode(state);
    if load.None? then
      if token.None? then Failed(-1)
      else Updated(DocValue(Some([PkgObjs(pkgname, version, pkgver)["state" := token.value]])))
    else
      var doc := load.value;
      var idx := FindByName(doc, pkgname);
      if idx.None? && findErrno != 0 && findErrno != ENOENT then Failed(findErrno)
      else if token.None? then Failed(-1)
      else if idx.Some? then
        var ps := doc.packages.value;
        Updated(DocValue(Some(ps[idx.value := ps[idx.value]["state" := token.value]])))
      else
        var ps := if doc.packages.None? then [] else doc.packages.value;
        Updated(DocValue(Some(ps + [PkgObjs(pkgname, version, pkgver)["state" := token.value]])))
  }

  /** A package dictionary as the transaction writes it for a new package. */
  predicate IsNewRecord(m: map<string, string>, pkgname: string, version: Option<string>,
                        pkgver: Option<string>, state: int)
  {
    && HasName(m, pkgname)
    && ("version" in m <==> version.Some?) && (version.Some? ==> m["version"] == version.value)
    && ("pkgver" in m <==> pkgver.Some?) && (pkgver.Some? ==> m["pkgver"] == pkgver.value)
    && Decode(StateField(m)) == state
    && m.Keys <= {"pkgname", "version", "pkgver", "state"}
  }

  /** First run (the document did not load): the result holds exactly one
      record, carrying `pkgname`, `version`/`pkgver` only when given, and the
      encoded state. */
  lemma ApplyOnFreshDocument(findErrno: int, pkgname: string, version: Option<string>,
                             pkgver: Option<string>, state: int)
    requires Encode(state).Some?
    ensures ApplyState(None, findErrno, pkgname, version, pkgver, state).Updated?
    ensures var doc := ApplyState(None, findErrno, pkgname, version, pkgver, state).doc;
      doc.packages.Some? && |doc.packages.value| == 1 &&
      IsNewRecord(doc.packages.value[0], pkgname, version, pkgver, state)
  {
    DecodeEncode(state);
  }

  /** A package already in the document: only that record's `state` changes;
      its other fields, every other record and the record count stay. */
  lemma ApplyToExistingRecord(load: DocValue, findErrno: int, pkgname: string,
                              version: Option<string>, pkgver: Option<string>, state: int)
    requires FindByName(load, pkgname).Some?
    requires Encode(state).Some?
    ensures load.packages.Some?
    ensures ApplyState(Some(load), findErrno, pkgname, version, pkgver, state).Updated?
    ensures var ps := load.packages.value;
      var qs := ApplyState(Some(load), findErrno, pkgname, version, pkgver, state).doc.packages;
      var i := FindByName(load, pkgname).value;
      && qs.Some? && |qs.value| == |ps|
      && (forall j :: 0 <= j < |ps| && j != i ==> qs.value[j] == ps[j])
      && qs.value[i].Keys == ps[i].Keys + {"state"}
      && (forall k :: k in ps[i] && k != "state" ==> qs.value[i][k] == ps[i][k])
      && Decode(StateField(qs.value[i])) == state
  {
    ApplyUpdatesShape(load, findErrno, pkgname, version, pkgver, state);
    DecodeEncode(state);
  }

  /** A package new to a loaded document: its record is appended after all
      existing ones (an absent `packages` array counts as empty). */
  lemma ApplyToAbsentRecord(load: DocValue, findErrno: int, pkgname: string,
                            version: Option<string>, pkgver: Option<string>, state: int)
    requires FindByName(load, pkgname).None? && (findErrno == 0 || findErrno == ENOENT)
    requires Encode(state).Some?
    ensures ApplyState(Some(load), findErrno, pkgname, version, pkgver, state).Updated?
    ensures var ps := if load.packages.None? then [] else load.packages.value;
      var qs := ApplyState(Some(load), findErrno, pkgname, version, pkgver, state).doc.packages;
      && qs.Some? && |qs.value| == |ps| + 1 && qs.value[..|ps|] == ps
      && IsNewRecord(qs.value[|ps|], pkgname, version, pkgver, state)
  {
    ApplyAppendsShape(load, findErrno, pkgname, version, pkgver, state);
    DecodeEncode(state);
  }

  /** A state outside the table aborts before anything is written: with -1,
      or with errno when a failed lookup already aborted. */
  lemma ApplyRejectsUnknownState(load: Option<DocValue>, findErrno: int, pkgname: string,
                                 version: Option<string>, pkgver: Option<string>, state: int)
    requires !(1 <= state <= 6)
    ensures ApplyState(load, findErrno, pkgname, version, pkgver, state).Failed?
    ensures ApplyState(load, findErrno, pkgname, version, pkgver, state).rv ==
      if load.Some? && FindByName(load.value, pkgname).None? && findErrno != 0 && findErrno != ENOENT
      then findErrno else -1
  {
    EncodableStates(state);
  }

  /** No two records share a `pkgname`. */
  ghost predicate UniqueNames(ps: seq<map<string, string>>)
  {
    forall i, j :: 0 <= i < j < |ps| && "pkgname" in ps[i] ==> !HasName(ps[j], ps[i]["pkgname"])
  }

  /** Every `state` present decodes to a state of the table. */
  ghost predicate StatesKnown(ps: seq<map<string, string>>)
  {
    forall i :: 0 <= i < |ps| && "state" in ps[i] ==> Decode(Some(ps[i]["state"])) != 0
  }

  /** The transaction keeps `pkgname` unique and every `state` decodable. */
  lemma ApplyPreservesInvariants(load: Option<DocValue>, findErrno: int, pkgname: string,
                                 version: Option<string>, pkgver: Option<string>, state: int)
    requires load.Some? && load.value.packages.Some? ==>
      UniqueNames(load.value.packages.value) && StatesKnown(load.value.packages.value)
    requires ApplyState(load, findErrno, pkgname, version, pkgver, state).Updated?
    ensures var qs := ApplyState(load, findErrno, pkgname, version, pkgver, state).doc.packages;
      qs.Some? && UniqueNames(qs.value) && StatesKnown(qs.value)
  {
    EncodableStates(state);
    if load.None? {
      ApplyOnFreshDocument(findErrno, pkgname, version, pkgver, state);
    } else if FindByName(load.value, pkgname).Some? {
      ApplyToExistingRecord(load.value, findErrno, pkgname, version, pkgver, state);
      var qs := ApplyState(load, findErrno, pkgname, version, pkgver, state).doc.packages.value;
      UpdateKeepsInvariants(load.value.packages.value, qs, FindByName(load.value, pkgname).value, state);
    } else {
      ApplyToAbsentRecord(load.value, findErrno, pkgname, version, pkgver, state);
      var ps := if load.value.packages.None? then [] else load.value.packages.value;
      var qs := ApplyState(load, findErrno, pkgname, version, pkgver, state).doc.packages.value;
      AppendKeepsInvariants(ps, qs, pkgname, version, pkgver, state);
    }
  }

  /** Changing only one record's `state` to a known state keeps both invariants. */
  lemma UpdateKeepsInvariants(ps: seq<map<string, string>>, qs: seq<map<string, string>>, i: nat, state: int)
    requires UniqueNames(ps) && StatesKnown(ps)
    requires i < |ps| && |qs| == |ps|
    requires forall j :: 0 <= j < |ps| && j != i ==> qs[j] == ps[j]
    requires qs[i].Keys == ps[i].Keys + {"state"}
    requires forall k :: k in ps[i] && k != "state" ==> qs[i][k] == ps[i][k]
    requires Decode(StateField(qs[i])) == state && state != 0
    ensures UniqueNames(qs) && StatesKnown(qs)
  {
    forall a, b | 0 <= a < b < |qs| && "pkgname" in qs[a]
      ensures !HasName(qs[b], qs[a]["pkgname"])
    {
      assert "pkgname" in ps[a] && qs[a]["pkgname"] == ps[a]["pkgname"];
      assert "pkgname" in ps[b] ==> qs[b]["pkgname"] == ps[b]["pkgname"];
    }
    forall a | 0 <= a < |qs| && "state" in qs[a]
      ensures Decode(Some(qs[a]["state"])) != 0
    {
      if a != i {
        assert qs[a] == ps[a];
      }
    }
  }

  /** Appending a record whose name is new and whose state is known keeps
      both invariants. */
  lemma AppendKeepsInvariants(ps: seq<map<string, string>>, qs: seq<map<string, string>>, pkgname: string,
                              version: Option<string>, pkgver: Option<string>, state: int)
    requires UniqueNames(ps) && StatesKnown(ps)
    requires forall j :: 0 <= j < |ps| ==> !HasName(ps[j], pkgname)
    requires |qs| == |ps| + 1 && qs[..|ps|] == ps
    requires IsNewRecord(qs[|ps|], pkgname, version, pkgver, state) && state != 0
    ensures UniqueNames(qs) && StatesKnown(qs)
  {
    forall a, b | 0 <= a < b < |qs| && "pkgname" in qs[a]
      ensures !HasName(qs[b], qs[a]["pkgname"])
    {
      assert qs[a] == qs[..|ps|][a];
      if b < |ps| {
        assert qs[b] == qs[..|ps|][b];
      }
    }
    forall a | 0 <= a < |qs| && "state" in qs[a]
      ensures Decode(Some(qs[a]["state"])) != 0
    {
      if a < |ps| {
        assert qs[a] == qs[..|ps|][a];
      }
    }
  }

  /** Registering a package twice leaves one record: the second call only
      changes its state and ignores the new `version`/`pkgver`. */
  lemma ReapplyKeepsFirstFields(e1: int, e2: int, pkgname: string,
                                v1: Option<string>, pv1: Option<string>, s1: int,
                                v2: Option<string>, pv2: Option<string>, s2: int)
    requires Encode(s1).Some? && Encode(s2).Some?
    ensures ApplyState(None, e1, pkgname, v1, pv1, s1).Updated?
    ensures var d1 := ApplyState(None, e1, pkgname, v1, pv1, s1).doc;
      var r2 := ApplyState(Some(d1), e2, pkgname, v2, pv2, s2);
      r2.Updated? && r2.doc.packages.Some? && |r2.doc.packages.value| == 1 &&
      IsNewRecord(r2.doc.packages.value[0], pkgname, v1, pv1, s2)
  {
    ApplyOnFreshDocument(e1, pkgname, v1, pv1, s1);
    var d1 := ApplyState(None, e1, pkgname, v1, pv1, s1).doc;
    assert FindByName(d1, pkgname) == Some(0);
    ApplyToExistingRecord(d1, e2, pkgname, v2, pv2, s2);
  }

  /** Result of `access(metadir, X_OK)`: success, or failure with errno.
      Only ENOENT sends the transaction to `xbps_mkpath`. */
  datatype DirAccess = Accessible | AccessFailed(errno: int)

  /** Result of `xbps_mkpath` and of the document write. */
  datatype IoResult = IoOk | IoFailed(errno: int)

  /** Everything the transaction learns from outside: the loaded document,
      errno after a failed lookup, the metadata directory, and the outcomes of
      directory creation and of the write. */
  datatype Environment = Environment(load: Option<DocValue>, findErrno: int, metadir: DirAccess,
                                     mkpath: IoResult, save: IoResult)

  /** Lines 190-228 of `xbps_set_pkg_state_installed`: loading failed, so a
      fresh document is built around a single new record. Returns the error
      code and, on success, the document. */
  method BuildFreshDocument(pkgname: string, version: Option<string>, pkgver: Option<string>, state: int)
    returns (rv: int, dict: Document?)
    ensures ApplyState(None, 0, pkgname, version, pkgver, state).Failed? ==>
      dict == null && rv == ApplyState(None, 0, pkgname, version, pkgver, state).rv
    ensures ApplyState(None, 0, pkgname, version, pkgver, state).Updated? ==>
      dict != null && rv == 0 && dict.View() == ApplyState(None, 0, pkgname, version, pkgver, state).doc
  {
    dict := new Document.Empty();
    var pkgd := new Record(map[]);
    SetPkgObjs(pkgd, pkgname, version, pkgver);
    rv := SetNewState(pkgd, state);
    if rv != 0 {
      return rv, null;
    }
    dict.packages := Some([pkgd]);
    assert [pkgd][..0] == [];
    assert FieldsOf([pkgd]) == [pkgd.fields];
  }

  /** Lines 229-266 of `xbps_set_pkg_state_installed`: update the record
      named `pkgname` in the loaded document in place, or append a new one. */
  method UpdateLoadedDocument(load: DocValue, findErrno: int, pkgname: string,
                              version: Option<string>, pkgver: Option<string>, state: int)
    returns (rv: int, dict: Document?)
    ensures ApplyState(Some(load), findErrno, pkgname, version, pkgver, state).Failed? ==>
      dict == null && rv == ApplyState(Some(load), findErrno, pkgname, version, pkgver, state).rv
    ensures ApplyState(Some(load), findErrno, pkgname, version, pkgver, state).Updated? ==>
      dict != null && rv == 0 && dict.View() == ApplyState(Some(load), findErrno, pkgname, version, pkgver, state).doc
  {
    dict := Internalize(load);
    var pkgd := FindPkgInDictByName(dict, pkgname);
    if pkgd == null {
      if findErrno != 0 && findErrno != ENOENT {
        ApplyLookupFails(load, findErrno, pkgname, version, pkgver, state);
        return findErrno, null;
      }
      rv := AppendToLoaded(dict, load, findErrno, pkgname, version, pkgver, state);
    } else {
      assert pkgd in dict.Records();
      rv := UpdateFoundRecord(dict, pkgd, load, findErrno, pkgname, version, pkgver, state,
                              FindByName(load, pkgname).value);
    }
    if rv != 0 {
      dict := null;
    }
  }

  /** The loaded document lacks the package: a new record is appended. */
  method AppendToLoaded(dict: Document, load: DocValue, findErrno: int, pkgname: string,
                        version: Option<string>, pkgver: Option<string>, state: int)
    returns (rv: int)
    requires dict.Valid() && dict.View() == load
    requires FindByName(load, pkgname).None? && (findErrno == 0 || findErrno == ENOENT)
    modifies dict
    ensures rv != 0 ==> ApplyState(Some(load), findErrno, pkgname, version, pkgver, state) == Failed(rv)
    ensures rv == 0 ==> ApplyState(Some(load), findErrno, pkgname, version, pkgver, state) == Updated(dict.View())
  {
    assert FieldsOf(dict.Records()) == if load.packages.None? then [] else load.packages.value;
    rv := AppendNewRecord(dict, pkgname, version, pkgver, state);
    if rv == 0 {
      ApplyAppendsShape(load, findErrno, pkgname, version, pkgver, state);
    } else {
      EncodableStates(state);
      ApplyRejectsUnknownState(Some(load), findErrno, pkgname, version, pkgver, state);
    }
  }

  /** The loaded document holds the package as record `i`: its state is set
      in place. */
  method UpdateFoundRecord(dict: Document, pkgd: Record, load: DocValue, findErrno: int, pkgname: string,
                           version: Option<string>, pkgver: Option<string>, state: int, ghost i: nat)
    returns (rv: int)
    requires dict.Valid() && dict.View() == load
    requires FindByName(load, pkgname) == Some(i)
    requires dict.packages.Some? && i < |dict.packages.value| && pkgd == dict.packages.value[i]
    modifies pkgd
    ensures rv != 0 ==> ApplyState(Some(load), findErrno, pkgname, version, pkgver, state) == Failed(rv)
    ensures rv == 0 ==> ApplyState(Some(load), findErrno, pkgname, version, pkgver, state) == Updated(dict.View())
  {
    rv := SetFoundRecordState(dict, pkgd, state, i);
    if rv == 0 {
      ApplyUpdatesShape(load, findErrno, pkgname, version, pkgver, state);
    } else {
      EncodableStates(state);
      ApplyRejectsUnknownState(Some(load), findErrno, pkgname, version, pkgver, state);
    }
  }

  lemma ApplyLookupFails(load: DocValue, findErrno: int, pkgname: string,
                         version: Option<string>, pkgver: Option<string>, state: int)
    requires FindByName(load, pkgname).None? && findErrno != 0 && findErrno != ENOENT
    ensures ApplyState(Some(load), findErrno, pkgname, version, pkgver, state) == Failed(findErrno)
  {
  }

  /** The new-package path: build the record, create `packages` if the
      document lacks it, set the state, append the record. */
  method AppendNewRecord(dict: Document, pkgname: string, version: Option<string>, pkgver: Option<string>, state: int)
    returns (rv: int)
    requires dict.Valid()
    modifies dict
    ensures rv == 0 <==> Encode(state).Some?
    ensures rv != 0 ==> rv == -1
    ensures rv == 0 ==> dict.Valid()
    ensures rv == 0 ==>
      dict.View() == DocValue(Some(old(FieldsOf(dict.Records())) + [PkgObjs(pkgname, version, pkgver)["state" := Encode(state).value]]))
  {
    ghost var ps := FieldsOf(dict.Records());
    var pkgd := NewPkgRecord(pkgname, version, pkgver);
    EnsurePackages(dict);
    ghost var rs := dict.packages.value;
    assert FieldsOf(rs) == ps;
    assert pkgd !in rs;
    rv := SetNewState(pkgd, state);
    if rv != 0 {
      return;
    }
    assert FieldsOf(rs) == ps;
    AttachRecord(dict, pkgd, ps);
  }

  /** A fresh dictionary filled by `set_pkg_objs`. */
  method NewPkgRecord(pkgname: string, version: Option<string>, pkgver: Option<string>) returns (pkgd: Record)
    ensures fresh(pkgd) && pkgd.fields == PkgObjs(pkgname, version, pkgver)
  {
    pkgd := new Record(map[]);
    SetPkgObjs(pkgd, pkgname, version, pkgver);
  }

  /** Creates the `packages` array when the document has none. */
  method EnsurePackages(dict: Document)
    requires dict.Valid()
    modifies dict
    ensures dict.Valid() && dict.packages.Some?
    ensures dict.packages.value == old(dict.Records())
  {
    if dict.packages.None? {
      dict.packages := Some([]);
    }
  }

  /** `xbps_add_obj_to_array(array, pkgd)`: the record joins the end of `packages`. */
  method AttachRecord(dict: Document, pkgd: Record, ghost before: seq<map<string, string>>)
    requires dict.Valid() && dict.packages.Some? && pkgd !in dict.packages.value
    requires FieldsOf(dict.packages.value) == before
    modifies dict
    ensures dict.Valid()
    ensures dict.packages == Some(old(dict.packages.value) + [pkgd])
    ensures dict.View() == DocValue(Some(before + [pkgd.fields]))
  {
    var rs := dict.packages.value;
    FieldsOfSnoc(rs, pkgd);
    DistinctSnoc(rs, pkgd);
    var grown := rs + [pkgd];
    dict.packages := Some(grown);
    assert dict.View() == DocValue(Some(FieldsOf(grown)));
  }

  /** The existing-package path: only the found record's `state` changes. */
  method SetFoundRecordState(dict: Document, pkgd: Record, state: int, ghost i: nat) returns (rv: int)
    requires dict.Valid() && dict.packages.Some? && i < |dict.packages.value|
    requires pkgd == dict.packages.value[i]
    modifies pkgd
    ensures rv == 0 <==> Encode(state).Some?
    ensures rv != 0 ==> rv == -1
    ensures rv == 0 ==> dict.Valid()
    ensures rv == 0 ==> (
      var ps := old(dict.View()).packages.value;
      dict.View() == DocValue(Some(ps[i := ps[i]["state" := Encode(state).value]])))
  {
    var rs := dict.packages.value;
    ghost var before := FieldsOf(rs);
    rv := SetNewState(pkgd, state);
    if rv == 0 {
      assert FieldsOf(rs) == before[i := before[i]["state" := Encode(state).value]];
    }
  }

  lemma ApplyAppendsShape(load: DocValue, findErrno: int, pkgname: string,
                          version: Option<string>, pkgver: Option<string>, state: int)
    requires FindByName(load, pkgname).None? && (findErrno == 0 || findErrno == ENOENT)
    requires Encode(state).Some?
    ensures ApplyState(Some(load), findErrno, pkgname, version, pkgver, state) ==
      Updated(DocValue(Some((if load.packages.None? then [] else load.packages.value) +
                            [PkgObjs(pkgname, version, pkgver)["state" := Encode(state).value]])))
  {
  }

  lemma ApplyUpdatesShape(load: DocValue, findErrno: int, pkgname: string,
                          version: Option<string>, pkgver: Option<string>, state: int)
    requires FindByName(load, pkgname).Some?
    requires Encode(state).Some?
    ensures load.packages.Some? && FindByName(load, pkgname).value < |load.packages.value|
    ensures ApplyState(Some(load), findErrno, pkgname, version, pkgver, state) ==
      var ps := load.packages.value;
      var i := FindByName(load, pkgname).value;
      Updated(DocValue(Some(ps[i := ps[i]["state" := Encode(state).value]])))
  {
  }

  /** `xbps_set_pkg_state_installed`. Returns the error code and the document
      handed to the write (None when the write is not reached). */
  method SetPkgStateInstalled(pkgname: string, version: Option<string>, pkgver: Option<string>,
                              state: int, env: Environment)
    returns (rv: int, written: Option<DocValue>)
    ensures ApplyState(env.load, env.findErrno, pkgname, version, pkgver, state).Failed? ==>
      rv == ApplyState(env.load, env.findErrno, pkgname, version, pkgver, state).rv && written.None?
    ensures ApplyState(env.load, env.findErrno, pkgname, version, pkgver, state).Updated? ==>
      if env.metadir == AccessFailed(ENOENT) && env.mkpath.IoFailed? then
        rv == env.mkpath.errno && written.None?
      else
        written == Some(ApplyState(env.load, env.findErrno, pkgname, version, pkgver, state).doc) &&
        rv == (if env.save.IoOk? then 0 else env.save.errno)
  {
    var dict: Document?;
    if env.load.None? {
      rv, dict := BuildFreshDocument(pkgname, version, pkgver, state);
    } else {
      rv, dict := UpdateLoadedDocument(env.load.value, env.findErrno, pkgname, version, pkgver, state);
    }
    if dict == null {
      return rv, None;
    }
    // create the metadata directory if it does not exist
    if env.metadir == AccessFailed(ENOENT) && env.mkpath.IoFailed? {
      return env.mkpath.errno, None;
    }
    written := Some(dict.View());
    rv := if env.save.IoOk? then 0 else env.save.errno;
  }
}
