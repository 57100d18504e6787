/**
 * Folding decoded fragments into one template (internal/build/template.go, `appendFile`,
 * `appendScalarValue` and the merge loop of `ParseFiles`). Files are unified per directory:
 * a fragment whose directory is new becomes a file of its own, one whose directory is known
 * is appended to that file when the packages agree and is an error when they do not.
 * Scalar descriptions are kept once per protobuf type, the first one seen winning.
 */
module Merge {
  import opened Wrappers
  import opened Strings
  import opened Model

  /** The error `appendFile` reports: the existing file's name and the incoming one's. */
  datatype MergeError = PackageMismatch(existing: string, incoming: string)

  /** Fragments of the validation plugin's own descriptor are never documented. */
  const ValidateProto := "validate/validate.proto"

  /** No two files share a directory. */
  predicate DirsDistinct(files: seq<File>) {
    forall i, j :: 0 <= i < j < |files| ==> files[i].dir != files[j].dir
  }

  function Dirs(files: seq<File>): set<string> {
    set i | 0 <= i < |files| :: files[i].dir
  }

  /** The first file in directory `dir`, or `|files|` when there is none. */
  function FindDir(files: seq<File>, dir: string): (i: nat)
    ensures i <= |files|
    ensures i < |files| ==> files[i].dir == dir
    ensures forall j | 0 <= j < i :: files[j].dir != dir
  {
    if |files| == 0 then 0
    else if files[0].dir == dir then 0
    else 1 + FindDir(files[1..], dir)
  }

  /** Services merged into a file point at that file. */
  function Adopt(services: seq<Service>, dir: string): (r: seq<Service>)
    ensures |r| == |services|
  {
    seq(|services|, k requires 0 <= k < |services| => services[k].(owner := Some(dir)))
  }

  /** `file` after `newer` (same directory, same package) has been appended to it. */
  function MergeInto(file: File, newer: File): File {
    var enums := file.enums + newer.enums;
    var extensions := file.extensions + newer.extensions;
    var messages := file.messages + newer.messages;
    var services := file.services + Adopt(newer.services, file.dir);
    file.(enums := enums, extensions := extensions, messages := messages, services := services,
          hasEnums := |enums| > 0, hasExtensions := |extensions| > 0,
          hasMessages := |messages| > 0, hasServices := |services| > 0,
          description := "", options := map[])
  }

  /**
   * `appendFile`: the files after one fragment file is folded in. `dirOf` stands for
   * `filepath.Clean(filepath.Dir(name))`.
   */
  function AppendFile(files: seq<File>, newer: File, dirOf: string -> string): (r: Result<seq<File>, MergeError>)
    ensures r.Err? ==> r.error.incoming == newer.name
    ensures r.Ok? ==> |files| <= |r.value| <= |files| + 1
  {
    if EndsWith(newer.name, ValidateProto) then Ok(files)
    else
      var placed := newer.(dir := dirOf(newer.name));
      var i := FindDir(files, placed.dir);
      if i == |files| then Ok(files + [placed])
      else if files[i].package != placed.package then Err(PackageMismatch(files[i].name, placed.name))
      else Ok(files[i := MergeInto(files[i], placed)])
  }

  /** A validation descriptor is dropped and leaves the files as they were. */
  lemma AppendFileDropsValidate(files: seq<File>, newer: File, dirOf: string -> string)
    requires EndsWith(newer.name, ValidateProto)
    ensures AppendFile(files, newer, dirOf) == Ok(files)
  {
  }

  /**
   * A file in a directory no existing file has is appended as it came, with its directory
   * set; its `Has*` flags, description and options are not recomputed.
   */
  lemma AppendFileNew(files: seq<File>, newer: File, dirOf: string -> string)
    requires !EndsWith(newer.name, ValidateProto)
    requires dirOf(newer.name) !in Dirs(files)
    ensures AppendFile(files, newer, dirOf) == Ok(files + [newer.(dir := dirOf(newer.name))])
  {
  }

  /** A file in a known directory with another package is an error; the files are untouched. */
  lemma AppendFileMismatch(files: seq<File>, newer: File, dirOf: string -> string, i: nat)
    requires DirsDistinct(files)
    requires !EndsWith(newer.name, ValidateProto)
    requires i < |files| && files[i].dir == dirOf(newer.name) && files[i].package != newer.package
    ensures AppendFile(files, newer, dirOf) == Err(PackageMismatch(files[i].name, newer.name))
  {
    assert FindDir(files, dirOf(newer.name)) == i;
  }

  /**
   * A file in a known directory with the same package is appended to the file there:
   * every list becomes old ++ new, every `Has*` flag says whether its list is non-empty,
   * the description and the options are cleared, the incoming services point at that
   * file, and every other file is unchanged.
   */
  lemma AppendFileMerged(files: seq<File>, newer: File, dirOf: string -> string, i: nat)
    requires DirsDistinct(files)
    requires !EndsWith(newer.name, ValidateProto)
    requires i < |files| && files[i].dir == dirOf(newer.name) && files[i].package == newer.package
    ensures AppendFile(files, newer, dirOf).Ok?
    ensures var r := AppendFile(files, newer, dirOf).value;
      && |r| == |files|
      && (forall j | 0 <= j < |files| && j != i :: r[j] == files[j])
      && r[i].dir == files[i].dir && r[i].name == files[i].name && r[i].package == files[i].package
      && r[i].enums == files[i].enums + newer.enums
      && r[i].extensions == files[i].extensions + newer.extensions
      && r[i].messages == files[i].messages + newer.messages
      && r[i].services[..|files[i].services|] == files[i].services
      && |r[i].services| == |files[i].services| + |newer.services|
      && (forall k | 0 <= k < |newer.services| ::
            r[i].services[|files[i].services| + k] == newer.services[k].(owner := Some(files[i].dir)))
      && r[i].hasEnums == (|r[i].enums| > 0) && r[i].hasExtensions == (|r[i].extensions| > 0)
      && r[i].hasMessages == (|r[i].messages| > 0) && r[i].hasServices == (|r[i].services| > 0)
      && r[i].description == "" && r[i].options == map[]
  {
    assert FindDir(files, dirOf(newer.name)) == i;
  }

  /** Whether `appendFile` fails depends only on the first file in the fragment's directory. */
  lemma {:induction false} AppendFileError(files: seq<File>, newer: File, dirOf: string -> string)
    requires DirsDistinct(files)
    ensures AppendFile(files, newer, dirOf).Err? <==>
      !EndsWith(newer.name, ValidateProto) &&
      exists i :: 0 <= i < |files| && files[i].dir == dirOf(newer.name) && files[i].package != newer.package
  {
    if !EndsWith(newer.name, ValidateProto) {
      var d := dirOf(newer.name);
      var i := FindDir(files, d);
      if exists j :: 0 <= j < |files| && files[j].dir == d && files[j].package != newer.package {
        var j :| 0 <= j < |files| && files[j].dir == d && files[j].package != newer.package;
        assert i == j;
      }
    }
  }

  /**
   * Directories stay pairwise distinct, and the directories after a successful step are the
   * old ones plus the fragment's (unless it was dropped).
   */
  lemma {:induction false} AppendFileKeepsDirsDistinct(files: seq<File>, newer: File, dirOf: string -> string)
    requires DirsDistinct(files)
    ensures var r := AppendFile(files, newer, dirOf);
      r.Ok? ==> (DirsDistinct(r.value) &&
        Dirs(r.value) == Dirs(files) + (if EndsWith(newer.name, ValidateProto) then {} else {dirOf(newer.name)}))
  {
    var r := AppendFile(files, newer, dirOf);
    if r.Ok? && !EndsWith(newer.name, ValidateProto) {
      var d := dirOf(newer.name);
      var i := FindDir(files, d);
      if i == |files| {
        assert r.value == files + [newer.(dir := d)];
        assert r.value[|files|].dir == d;
        assert forall j | 0 <= j < |files| :: r.value[j] == files[j];
        assert Dirs(r.value) == Dirs(files) + {d};
      } else {
        assert forall j | 0 <= j < |files| :: r.value[j].dir == files[j].dir;
        assert Dirs(r.value) == Dirs(files);
        assert d in Dirs(files);
      }
    }
  }

  /** The files after the files of one fragment are folded in, stopping at the first error. */
  function AppendFiles(files: seq<File>, newers: seq<File>, dirOf: string -> string): (r: (seq<File>, Option<MergeError>))
    ensures |r.0| >= |files|
    decreases |newers|
  {
    if |newers| == 0 then (files, None)
    else
      match AppendFile(files, newers[0], dirOf)
      case Err(e) => (files, Some(e))
      case Ok(next) => AppendFiles(next, newers[1..], dirOf)
  }

  lemma {:induction false} AppendFilesKeepsDirsDistinct(files: seq<File>, newers: seq<File>, dirOf: string -> string)
    requires DirsDistinct(files)
    ensures DirsDistinct(AppendFiles(files, newers, dirOf).0)
    ensures Dirs(files) <= Dirs(AppendFiles(files, newers, dirOf).0)
    decreases |newers|
  {
    if |newers| > 0 {
      AppendFileKeepsDirsDistinct(files, newers[0], dirOf);
      var r := AppendFile(files, newers[0], dirOf);
      if r.Ok? {
        AppendFilesKeepsDirsDistinct(r.value, newers[1..], dirOf);
      }
    }
  }

  // Scalars

  predicate HasProto(scalars: seq<ScalarValue>, protoType: string) {
    exists k :: 0 <= k < |scalars| && scalars[k].protoType == protoType
  }

  /** No two scalar descriptions are for the same protobuf type. */
  predicate ProtoTypesDistinct(scalars: seq<ScalarValue>) {
    forall i, j :: 0 <= i < j < |scalars| ==> scalars[i].protoType != scalars[j].protoType
  }

  /** `appendScalarValue`: a description for a type already present is ignored. */
  function AddScalar(scalars: seq<ScalarValue>, s: ScalarValue): (r: seq<ScalarValue>)
    ensures HasProto(scalars, s.protoType) ==> r == scalars
    ensures !HasProto(scalars, s.protoType) ==> r == scalars + [s]
  {
    if exists k :: 0 <= k < |scalars| && scalars[k].protoType == s.protoType then scalars else scalars + [s]
  }

  /** The first description for `protoType` in `scalars`, if any. */
  function FirstWith(scalars: seq<ScalarValue>, protoType: string): Option<ScalarValue> {
    if |scalars| == 0 then None
    else if scalars[0].protoType == protoType then Some(scalars[0])
    else FirstWith(scalars[1..], protoType)
  }

  /** The scalars after one fragment's scalars are added in order. */
  function AddScalars(scalars: seq<ScalarValue>, incoming: seq<ScalarValue>): (r: seq<ScalarValue>)
    ensures |r| >= |scalars|
    decreases |incoming|
  {
    if |incoming| == 0 then scalars else AddScalars(AddScalar(scalars, incoming[0]), incoming[1..])
  }

  lemma {:induction false} FirstWithAppend(a: seq<ScalarValue>, b: seq<ScalarValue>, p: string)
    ensures FirstWith(a + b, p) == if HasProto(a, p) then FirstWith(a, p) else FirstWith(b, p)
  {
    if |a| == 0 {
      assert a + b == b;
    } else {
      assert (a + b)[0] == a[0];
      assert (a + b)[1..] == a[1..] + b;
      FirstWithAppend(a[1..], b, p);
      if a[0].protoType == p {
        assert HasProto(a, p) by { assert a[0].protoType == p; }
      } else {
        if HasProto(a, p) {
          var k :| 0 <= k < |a| && a[k].protoType == p;
          assert a[1..][k - 1].protoType == p;
        }
        if HasProto(a[1..], p) {
          var k :| 0 <= k < |a[1..]| && a[1..][k].protoType == p;
          assert a[k + 1].protoType == p;
        }
      }
    }
  }

  lemma AddScalarKeepsDistinct(scalars: seq<ScalarValue>, s: ScalarValue)
    requires ProtoTypesDistinct(scalars)
    ensures ProtoTypesDistinct(AddScalar(scalars, s))
  {
    var next := AddScalar(scalars, s);
    if !HasProto(scalars, s.protoType) {
      forall i, j | 0 <= i < j < |next|
        ensures next[i].protoType != next[j].protoType
      {
        if j == |scalars| {
          assert next[i] == scalars[i];
        }
      }
    }
  }

  /** One `appendScalarValue` step does not change which description is first for any type. */
  lemma AddScalarStep(scalars: seq<ScalarValue>, s: ScalarValue, rest: seq<ScalarValue>, p: string)
    ensures FirstWith(AddScalar(scalars, s) + rest, p) == FirstWith(scalars + ([s] + rest), p)
    ensures HasProto(AddScalar(scalars, s) + rest, p) <==> HasProto(scalars + ([s] + rest), p)
  {
    var incoming := [s] + rest;
    if HasProto(scalars, s.protoType) {
      FirstWithAppend(scalars, rest, p);
      FirstWithAppend(scalars, incoming, p);
      HasProtoAppend(scalars, rest, p);
      HasProtoAppend(scalars, incoming, p);
      HasProtoAppend([s], rest, p);
      assert incoming[0] == s && incoming[1..] == rest;
    } else {
      assert scalars + [s] + rest == scalars + incoming;
    }
  }

  /**
   * Adding scalars keeps protobuf types unique, and for every type the description kept is
   * the first one met over the old scalars followed by the incoming ones.
   */
  lemma {:induction false} AddScalarsFirstWins(scalars: seq<ScalarValue>, incoming: seq<ScalarValue>)
    requires ProtoTypesDistinct(scalars)
    ensures ProtoTypesDistinct(AddScalars(scalars, incoming))
    ensures forall p :: FirstWith(AddScalars(scalars, incoming), p) == FirstWith(scalars + incoming, p)
    ensures forall p :: HasProto(AddScalars(scalars, incoming), p) <==> HasProto(scalars + incoming, p)
    decreases |incoming|
  {
    if |incoming| == 0 {
      assert scalars + incoming == scalars;
    } else {
      var next := AddScalar(scalars, incoming[0]);
      AddScalarKeepsDistinct(scalars, incoming[0]);
      AddScalarsFirstWins(next, incoming[1..]);
      assert incoming == [incoming[0]] + incoming[1..];
      forall p
        ensures FirstWith(next + incoming[1..], p) == FirstWith(scalars + incoming, p)
        ensures HasProto(next + incoming[1..], p) <==> HasProto(scalars + incoming, p)
      {
        AddScalarStep(scalars, incoming[0], incoming[1..], p);
      }
    }
  }

  lemma HasProtoAppend(a: seq<ScalarValue>, b: seq<ScalarValue>, p: string)
    ensures HasProto(a + b, p) <==> HasProto(a, p) || HasProto(b, p)
  {
    if HasProto(a + b, p) {
      var k :| 0 <= k < |a + b| && (a + b)[k].protoType == p;
      if k >= |a| {
        assert b[k - |a|].protoType == p;
      }
    }
    if HasProto(b, p) {
      var k :| 0 <= k < |b| && b[k].protoType == p;
      assert (a + b)[|a| + k].protoType == p;
    }
    if HasProto(a, p) {
      var k :| 0 <= k < |a| && a[k].protoType == p;
      assert (a + b)[k].protoType == p;
    }
  }

  /** What the merge loop of `ParseFiles` leaves: the files, the scalars, and the error that stopped it. */
  datatype Merged = Merged(files: seq<File>, scalars: seq<ScalarValue>, error: Option<MergeError>)

  /**
   * The merge loop of `ParseFiles`: per fragment, its files and then its scalars; the first
   * package mismatch stops everything, and what was merged so far stays merged.
   */
  function MergeFragments(files: seq<File>, scalars: seq<ScalarValue>, fragments: seq<Fragment>, dirOf: string -> string): (r: Merged)
    ensures r.error.None? ==> |r.files| >= |files| && |r.scalars| >= |scalars|
    decreases |fragments|
  {
    if |fragments| == 0 then Merged(files, scalars, None)
    else
      var (next, err) := AppendFiles(files, fragments[0].files, dirOf);
      if err.Some? then Merged(next, scalars, err)
      else MergeFragments(next, AddScalars(scalars, fragments[0].scalars), fragments[1..], dirOf)
  }

  /** The merge keeps directories distinct and scalar types unique. */
  lemma {:induction false} MergeFragmentsInvariants(files: seq<File>, scalars: seq<ScalarValue>, fragments: seq<Fragment>, dirOf: string -> string)
    requires DirsDistinct(files) && ProtoTypesDistinct(scalars)
    ensures var r := MergeFragments(files, scalars, fragments, dirOf);
      DirsDistinct(r.files) && ProtoTypesDistinct(r.scalars) && Dirs(files) <= Dirs(r.files)
    decreases |fragments|
  {
    if |fragments| > 0 {
      AppendFilesKeepsDirsDistinct(files, fragments[0].files, dirOf);
      var (next, err) := AppendFiles(files, fragments[0].files, dirOf);
      if err.None? {
        AddScalarsFirstWins(scalars, fragments[0].scalars);
        MergeFragmentsInvariants(next, AddScalars(scalars, fragments[0].scalars), fragments[1..], dirOf);
      }
    }
  }
}
