/**
 * The `Template` of internal/build/template.go: the files and scalar descriptions merged
 * from every input fragment, updated in place by `ParseFiles` and the passes it runs. Each
 * method here is proved against the function of the same pass in `Merge`, `Classify`,
 * `SortPass` or `Shapes`, where the properties of the pass are proved.
 */
module Templates {
  import opened Wrappers
  import opened Strings
  import opened Model
  import opened Merge
  import opened Classify
  import opened SortPass
  import opened Shapes

  class Template {
    var files: seq<File>
    var scalars: seq<ScalarValue>

    constructor()
      ensures files == [] && scalars == []
    {
      files := [];
      scalars := [];
    }

    /**
     * `appendFile`: a validate.proto fragment is dropped, a file in a new directory is
     * appended, a file in a known directory is merged into the first file there unless the
     * packages differ.
     */
    method AppendFile(newer: File, dirOf: string -> string) returns (err: Option<MergeError>)
      modifies this
      ensures scalars == old(scalars)
      ensures var r := Merge.AppendFile(old(files), newer, dirOf);
        && (r.Ok? ==> err.None? && files == r.value)
        && (r.Err? ==> err == Some(r.error) && files == old(files))
    {
      if EndsWith(newer.name, ValidateProto) {
        return None;
      }
      var placed := newer.(dir := dirOf(newer.name));
      var i := 0;
      while i < |files| && files[i].dir != placed.dir
        invariant 0 <= i <= |files|
        invariant forall j | 0 <= j < i :: files[j].dir != placed.dir
      {
        i := i + 1;
      }
      assert i == FindDir(files, placed.dir);
      if i == |files| {
        files := files + [placed];
        return None;
      }
      var file := files[i];
      if file.package != placed.package {
        return Some(PackageMismatch(file.name, placed.name));
      }
      var enums := file.enums;
      for k := 0 to |placed.enums|
        invariant enums == file.enums + placed.enums[..k]
      {
        assert placed.enums[..k + 1] == placed.enums[..k] + [placed.enums[k]];
        enums := enums + [placed.enums[k]];
      }
      var extensions := file.extensions;
      for k := 0 to |placed.extensions|
        invariant extensions == file.extensions + placed.extensions[..k]
      {
        assert placed.extensions[..k + 1] == placed.extensions[..k] + [placed.extensions[k]];
        extensions := extensions + [placed.extensions[k]];
      }
      var messages := file.messages;
      for k := 0 to |placed.messages|
        invariant messages == file.messages + placed.messages[..k]
      {
        assert placed.messages[..k + 1] == placed.messages[..k] + [placed.messages[k]];
        messages := messages + [placed.messages[k]];
      }
      var services := file.services;
      for k := 0 to |placed.services|
        invariant services == file.services + Adopt(placed.services[..k], file.dir)
      {
        assert Adopt(placed.services[..k + 1], file.dir) ==
          Adopt(placed.services[..k], file.dir) + [placed.services[k].(owner := Some(file.dir))];
        services := services + [placed.services[k].(owner := Some(file.dir))];
      }
      assert placed.enums[..|placed.enums|] == placed.enums;
      assert placed.extensions[..|placed.extensions|] == placed.extensions;
      assert placed.messages[..|placed.messages|] == placed.messages;
      assert placed.services[..|placed.services|] == placed.services;
      files := files[i := file.(enums := enums, extensions := extensions, messages := messages, services := services,
                                hasEnums := |enums| > 0, hasExtensions := |extensions| > 0,
                                hasMessages := |messages| > 0, hasServices := |services| > 0,
                                description := "", options := map[])];
      err := None;
    }

    /** `appendScalarValue`: a description is added unless one for its type is already there. */
    method AppendScalarValue(scalar: ScalarValue)
      modifies this
      ensures files == old(files)
      ensures scalars == AddScalar(old(scalars), scalar)
    {
      var found := false;
      var i := 0;
      while i < |scalars|
        invariant 0 <= i <= |scalars|
        invariant !found ==> forall k | 0 <= k < i :: scalars[k].protoType != scalar.protoType
        invariant found ==> HasProto(scalars, scalar.protoType)
      {
        if scalar.protoType == scalars[i].protoType {
          found := true;
          break;
        }
        i := i + 1;
      }
      if !found {
        scalars := scalars + [scalar];
      }
    }

    /** The loop of `ParseFiles` over one fragment's files, stopping at the first error. */
    method AppendFiles(newers: seq<File>, dirOf: string -> string) returns (err: Option<MergeError>)
      modifies this
      ensures scalars == old(scalars)
      ensures (files, err) == Merge.AppendFiles(old(files), newers, dirOf)
    {
      for k := 0 to |newers|
        invariant scalars == old(scalars)
        invariant Merge.AppendFiles(files, newers[k..], dirOf) == Merge.AppendFiles(old(files), newers, dirOf)
      {
        assert newers[k..][0] == newers[k] && newers[k..][1..] == newers[k + 1..];
        err := AppendFile(newers[k], dirOf);
        if err.Some? {
          return;
        }
      }
      err := None;
    }

    /** The loop of `ParseFiles` over one fragment's scalars. */
    method AppendScalarValues(incoming: seq<ScalarValue>)
      modifies this
      ensures files == old(files)
      ensures scalars == AddScalars(old(scalars), incoming)
    {
      for k := 0 to |incoming|
        invariant files == old(files)
        invariant AddScalars(scalars, incoming[k..]) == AddScalars(old(scalars), incoming)
      {
        assert incoming[k..][0] == incoming[k] && incoming[k..][1..] == incoming[k + 1..];
        AppendScalarValue(incoming[k]);
      }
    }

    /**
     * The merge loop of `ParseFiles` over already decoded fragments: per fragment its files,
     * then its scalars; the first error returns and leaves what was merged so far.
     */
    method MergeAll(fragments: seq<Fragment>, dirOf: string -> string) returns (err: Option<MergeError>)
      modifies this
      ensures var m := MergeFragments(old(files), old(scalars), fragments, dirOf);
        files == m.files && scalars == m.scalars && err == m.error
    {
      for n := 0 to |fragments|
        invariant MergeFragments(files, scalars, fragments[n..], dirOf) == MergeFragments(old(files), old(scalars), fragments, dirOf)
      {
        assert fragments[n..][0] == fragments[n] && fragments[n..][1..] == fragments[n + 1..];
        err := AppendFiles(fragments[n].files, dirOf);
        if err.Some? {
          return;
        }
        AppendScalarValues(fragments[n].scalars);
      }
      err := None;
    }

    /**
     * `handleMapField` on the field at (fi, mi, k): an already classified or non-repeated
     * field is left alone; otherwise the entry message is searched for, its `key` and `value`
     * fields are picked, and the field becomes a map or an array.
     */
    method HandleMapField(fi: nat, mi: nat, k: nat)
      requires ValidField(files, fi, mi, k) && EntriesAvailable(files)
      modifies this
      ensures scalars == old(scalars)
      ensures files == ClassifyAt(old(files), fi, mi, k)
    {
      var f := files[fi].messages[mi].fields[k];
      if f.fieldLabel != "repeated" || f.done {
        SetFieldSame(files, fi, mi, k);
        return;
      }
      if !f.isMap {
        files := SetField(files, fi, mi, k, AsArray(f));
        return;
      }
      var entry := SearchEntry(files, f.fullType);
      var p := entry.value;
      var fields := files[p.file].messages[p.message].fields;
      var key, value := PickKeyValue(fields);
      if key.None? || value.None? || |fields| != 2 {
        files := SetField(files, fi, mi, k, AsArray(f));
        return;
      }
      MarkEntryFacts(files, p, fi, mi, k);
      files := MarkEntry(files, p);
      files := SetField(files, fi, mi, k, AsMap(f, key.value, value.value));
    }

    /**
     * The linking and classification loops of `finishParse`, file by file and field by
     * field, followed by the sort pass.
     */
    method FinishParse()
      requires EntriesAvailable(files)
      modifies this
      ensures scalars == old(scalars)
      ensures SortPassOf(FinishFiles(old(files), 0), files)
    {
      ghost var target := FinishFiles(files, 0);
      ghost var cur := files;
      var i := 0;
      while i < |files|
        invariant files == cur && scalars == old(scalars)
        invariant i <= |cur| && EntriesAvailable(cur)
        invariant FinishFiles(cur, i) == target
      {
        FinishFilesUnfold(cur, i);
        files := LinkAt(files, i);
        ClassifyMessagesStep(files, i);
        cur := files;
        i := i + 1;
      }
      Sort();
    }

    /** The message loop for the file at `fi`. */
    method ClassifyMessagesStep(ghost linked: seq<File>, fi: nat)
      requires fi < |files| && files == linked && EntriesAvailable(files)
      modifies this
      ensures scalars == old(scalars)
      ensures files == ClassifyMessages(linked, fi, 0)
    {
      var mi := 0;
      ghost var cur := linked;
      while mi < |files[fi].messages|
        invariant files == cur && scalars == old(scalars)
        invariant fi < |cur| && EntriesAvailable(cur) && mi <= |cur[fi].messages|
        invariant ClassifyMessages(cur, fi, mi) == ClassifyMessages(linked, fi, 0)
        decreases |cur[fi].messages| - mi
      {
        ClassifyMessagesUnfold(cur, fi, mi);
        ClassifyFieldsStep(cur, fi, mi);
        cur := files;
        mi := mi + 1;
      }
    }

    /** The field loop for message `mi` of the file at `fi`. */
    method ClassifyFieldsStep(ghost start: seq<File>, fi: nat, mi: nat)
      requires fi < |files| && mi < |files[fi].messages| && files == start && EntriesAvailable(files)
      modifies this
      ensures scalars == old(scalars)
      ensures files == ClassifyFields(start, fi, mi, 0)
    {
      var k := 0;
      while k < |files[fi].messages[mi].fields|
        invariant fi < |files| && mi < |files[fi].messages| && EntriesAvailable(files)
        invariant k <= |files[fi].messages[mi].fields|
        invariant ClassifyFields(files, fi, mi, k) == ClassifyFields(start, fi, mi, 0)
        invariant scalars == old(scalars)
        decreases |files[fi].messages[mi].fields| - k
      {
        ghost var prev := files;
        ClassifyFieldsUnfold(files, fi, mi, k);
        HandleMapField(fi, mi, k);
        ClassifyAtProgress(prev, fi, mi, k);
        assert FileProgress(prev[fi], files[fi]);
        assert MessageProgress(prev[fi].messages[mi], files[fi].messages[mi]);
        k := k + 1;
      }
    }

    /** `sort`: every file sorted inside, then the files by package. */
    method Sort()
      modifies this
      ensures scalars == old(scalars)
      ensures SortPassOf(old(files), files)
    {
      ghost var before := files;
      var sorted := files;
      for i := 0 to |sorted|
        invariant |sorted| == |before|
        invariant forall k | 0 <= k < i :: sorted[k] == SortFile(before[k])
        invariant forall k | i <= k < |sorted| :: sorted[k] == before[k]
      {
        sorted := sorted[i := SortFile(sorted[i])];
      }
      SortFilesSorted(before, sorted);
      files := SortByKey(sorted, FilePackage);
      SortPassIntro(before, sorted, files);
    }

    /**
     * `buildMessagesJsonString`: registers the well-known types, every enum and message
     * (pointing each at its file) and every scalar, then gives every message whose shape
     * resolves that shape and leaves the others as they were.
     */
    method BuildMessagesJsonString(ghost rank: map<string, nat>)
      requires Ranked(RegistryOf(files, scalars), rank)
      modifies this
      ensures scalars == old(scalars) && |files| == |old(files)|
      ensures forall i | 0 <= i < |files| ::
        files[i] == ShapeFile(RegistryOf(old(files), scalars), rank, RelinkFile(old(files)[i]))
    {
      ghost var before := files;
      var objects := RegisterFiles();
      ghost var linked := files;
      objects := RegisterScalars(objects);
      PutAppend(WellKnownTable(), FileDecls(before), ScalarDecls(scalars));
      assert objects == RegistryOf(before, scalars);
      ShapeAll(objects, rank, linked);
    }

    /** The file loop of the registration, starting from the well-known table. */
    method RegisterFiles() returns (objects: Registry)
      modifies this
      ensures scalars == old(scalars) && |files| == |old(files)|
      ensures forall i | 0 <= i < |files| :: files[i] == RelinkFile(old(files)[i])
      ensures objects == Put(WellKnownTable(), FileDecls(old(files)))
    {
      objects, files := RegisterAll(files);
    }

    /** The scalar loop of the registration: each scalar under its protobuf type. */
    method RegisterScalars(objects: Registry) returns (r: Registry)
      ensures r == Put(objects, ScalarDecls(scalars))
    {
      r := objects;
      for k := 0 to |scalars|
        invariant r == Put(objects, ScalarDecls(scalars[..k]))
      {
        ScalarDeclsSnoc(scalars, k);
        PutSnoc(objects, ScalarDecls(scalars[..k]), Decl(scalars[k].protoType, ScalarEntry(scalars[k].protoType)));
        r := r[scalars[k].protoType := ScalarEntry(scalars[k].protoType)];
      }
      assert scalars[..|scalars|] == scalars;
    }

    /** The last loop of `buildMessagesJsonString`: every message of every file, in order. */
    method ShapeAll(objects: Registry, ghost rank: map<string, nat>, ghost linked: seq<File>)
      requires Ranked(objects, rank) && files == linked
      modifies this
      ensures scalars == old(scalars) && |files| == |linked|
      ensures forall i | 0 <= i < |files| :: files[i] == ShapeFile(objects, rank, linked[i])
    {
      for i := 0 to |files|
        invariant scalars == old(scalars)
        invariant |files| == |linked|
        invariant forall i' | 0 <= i' < i :: files[i'] == ShapeFile(objects, rank, linked[i'])
        invariant forall i' | i <= i' < |files| :: files[i'] == linked[i']
      {
        var messages := files[i].messages;
        ghost var current := files;
        for j := 0 to |messages|
          invariant files == current && scalars == old(scalars)
          invariant |messages| == |linked[i].messages|
          invariant forall j' | 0 <= j' < j :: messages[j'] == ShapeMessage(objects, rank, linked[i].messages[j'])
          invariant forall j' | j <= j' < |messages| :: messages[j'] == linked[i].messages[j']
        {
          var m := messages[j];
          var o := FromMessage(objects, rank, m.fields, FieldsBound(objects, rank, m.fields));
          if o.Ok? {
            messages := messages[j := m.(jsonObject := Some(o.value))];
          }
        }
        files := files[i := files[i].(messages := messages)];
      }
    }

    /**
     * `ParseFiles` over already decoded fragments: merge them all, stopping at the first
     * error, then finish the parse and build the example shapes. The code dereferences the
     * entry message of every map field and recurses through message types without a bound,
     * so the caller must supply fragments where both are possible.
     */
    method ParseFiles(fragments: seq<Fragment>, dirOf: string -> string) returns (err: Option<MergeError>)
      requires Parseable(MergeFragments(files, scalars, fragments, dirOf))
      modifies this
      ensures var m := MergeFragments(old(files), old(scalars), fragments, dirOf);
        && err == m.error
        && (err.Some? ==> files == m.files && scalars == m.scalars)
        && (err.None? ==> scalars == m.scalars && ParsedFrom(m.files, m.scalars, files))
    {
      ghost var m := MergeFragments(files, scalars, fragments, dirOf);
      err := MergeAll(fragments, dirOf);
      if err.Some? {
        return;
      }
      ParseableEntries(m);
      FinishParse();
      ghost var sorted := files;
      ghost var rank := PickRank(m, sorted);
      BuildMessagesJsonString(rank);
      ParsedIntro(m.files, scalars, sorted, rank, files);
    }
  }

  /**
   * What `ParseFiles` needs of the merged files: every map field's entry message exists, and
   * however the sort pass orders ties, the message graph can be ranked.
   */
  ghost predicate Parseable(m: Merged) {
    m.error.None? ==>
      && EntriesAvailable(m.files)
      && forall sorted | SortPassOf(FinishFiles(m.files, 0), sorted) :: exists rank :: Ranked(RegistryOf(sorted, m.scalars), rank)
  }

  /** The files after `buildMessagesJsonString` on `sorted`, for the ranking `rank`. */
  ghost predicate ShapedFrom(sorted: seq<File>, scalars: seq<ScalarValue>, rank: map<string, nat>, files: seq<File>) {
    && Ranked(RegistryOf(sorted, scalars), rank)
    && |files| == |sorted|
    && forall i | 0 <= i < |files| :: files[i] == ShapeFile(RegistryOf(sorted, scalars), rank, RelinkFile(sorted[i]))
  }

  /** The files after `finishParse` and `buildMessagesJsonString` on the merged files. */
  ghost predicate ParsedFrom(merged: seq<File>, scalars: seq<ScalarValue>, files: seq<File>)
    requires EntriesAvailable(merged)
  {
    exists sorted, rank :: SortPassOf(FinishFiles(merged, 0), sorted) && ShapedFrom(sorted, scalars, rank, files)
  }

  /** Every file in order: the declarations of each go in the registry, and each is relinked. */
  method RegisterAll(files: seq<File>) returns (objects: Registry, linked: seq<File>)
    ensures objects == Put(WellKnownTable(), FileDecls(files))
    ensures |linked| == |files|
    ensures forall i | 0 <= i < |files| :: linked[i] == RelinkFile(files[i])
  {
    linked := files;
    objects := WellKnownTable();
    for i := 0 to |files|
      invariant |linked| == |files|
      invariant forall i' | 0 <= i' < i :: linked[i'] == RelinkFile(files[i'])
      invariant objects == Put(WellKnownTable(), FileDecls(files[..i]))
    {
      FileDeclsSnoc(files, i);
      PutAppend(WellKnownTable(), FileDecls(files[..i]), OneFileDecls(files[i]));
      var file;
      objects, file := RegisterFile(objects, files[i]);
      linked := linked[i := file];
    }
    assert files[..|files|] == files;
  }

  lemma ParseableEntries(m: Merged)
    requires Parseable(m) && m.error.None?
    ensures EntriesAvailable(m.files)
  {
  }

  /** A ranking for whichever order the sort pass gave the merged files. */
  lemma PickRank(m: Merged, sorted: seq<File>) returns (rank: map<string, nat>)
    requires Parseable(m) && m.error.None?
    requires SortPassOf(FinishFiles(m.files, 0), sorted)
    ensures Ranked(RegistryOf(sorted, m.scalars), rank)
  {
    rank :| Ranked(RegistryOf(sorted, m.scalars), rank);
  }

  lemma ParsedIntro(merged: seq<File>, scalars: seq<ScalarValue>, sorted: seq<File>, rank: map<string, nat>, files: seq<File>)
    requires EntriesAvailable(merged)
    requires SortPassOf(FinishFiles(merged, 0), sorted)
    requires Ranked(RegistryOf(sorted, scalars), rank) && |files| == |sorted|
    requires forall i | 0 <= i < |files| :: files[i] == ShapeFile(RegistryOf(sorted, scalars), rank, RelinkFile(sorted[i]))
    ensures ParsedFrom(merged, scalars, files)
  {
    assert ShapedFrom(sorted, scalars, rank, files);
  }

  /** One file of the registration loop: its enums, then its messages, each pointed at the file. */
  method RegisterFile(objects: Registry, file: File) returns (r: Registry, linked: File)
    ensures r == Put(objects, OneFileDecls(file))
    ensures linked == RelinkFile(file)
  {
    var afterEnums, enums := RegisterEnums(objects, file.enums, file.dir);
    var messages;
    r, messages := RegisterMessages(afterEnums, file.messages, file.dir);
    PutAppend(objects, EnumDecls(file.enums), MessageDecls(file.messages));
    ghost var relinked := RelinkFile(file);
    assert enums == relinked.enums;
    assert messages == relinked.messages;
    linked := file.(enums := enums, messages := messages);
  }

  /**
   * The entry search of `handleMapField`: every file is scanned, and inside a file the scan
   * stops at the first message with the name, so a later file's match replaces an earlier one.
   */
  method SearchEntry(files: seq<File>, fullType: string) returns (entry: Option<Pos>)
    ensures entry == FindEntry(files, fullType)
  {
    entry := None;
    for i := 0 to |files|
      invariant entry == FindEntry(files[..i], fullType)
    {
      var j := 0;
      while j < |files[i].messages| && files[i].messages[j].fullName != fullType
        invariant 0 <= j <= |files[i].messages|
        invariant forall j' | 0 <= j' < j :: files[i].messages[j'].fullName != fullType
      {
        j := j + 1;
      }
      assert j == FirstMessageNamed(files[i].messages, fullType);
      assert files[..i + 1][..i] == files[..i];
      if j < |files[i].messages| {
        entry := Some(Pos(i, j));
      }
    }
    assert files[..|files|] == files;
  }

  /** The `switch` over the entry's fields: the last `key` and the last `value` field. */
  method PickKeyValue(fields: seq<Field>) returns (key: Option<Field>, value: Option<Field>)
    ensures key == LastFieldNamed(fields, "key")
    ensures value == LastFieldNamed(fields, "value")
  {
    key := None;
    value := None;
    for n := 0 to |fields|
      invariant key == LastFieldNamed(fields[..n], "key")
      invariant value == LastFieldNamed(fields[..n], "value")
    {
      assert fields[..n + 1][..n] == fields[..n];
      if fields[n].name == "key" {
        key := Some(fields[n]);
      } else if fields[n].name == "value" {
        value := Some(fields[n]);
      }
    }
    assert fields[..|fields|] == fields;
  }

  /** The enum loop of the registration: each enum under its full name, pointed at the file in `dir`. */
  method RegisterEnums(objects: Registry, enums: seq<Enum>, dir: string) returns (r: Registry, linked: seq<Enum>)
    ensures r == Put(objects, EnumDecls(enums))
    ensures |linked| == |enums| && forall k | 0 <= k < |enums| :: linked[k] == enums[k].(owner := Some(dir))
  {
    r := objects;
    linked := [];
    for k := 0 to |enums|
      invariant |linked| == k && forall k' | 0 <= k' < k :: linked[k'] == enums[k'].(owner := Some(dir))
      invariant r == Put(objects, EnumDecls(enums[..k]))
    {
      EnumDeclsSnoc(enums, k);
      PutSnoc(objects, EnumDecls(enums[..k]), Decl(enums[k].fullName, EnumEntry));
      linked := linked + [enums[k].(owner := Some(dir))];
      r := r[enums[k].fullName := EnumEntry];
    }
    assert enums[..|enums|] == enums;
  }

  /** The message loop of the registration: each message under its full name, pointed at the file in `dir`. */
  method RegisterMessages(objects: Registry, messages: seq<Message>, dir: string) returns (r: Registry, linked: seq<Message>)
    ensures r == Put(objects, MessageDecls(messages))
    ensures |linked| == |messages| && forall k | 0 <= k < |messages| :: linked[k] == messages[k].(owner := Some(dir))
  {
    r := objects;
    linked := [];
    for k := 0 to |messages|
      invariant |linked| == k && forall k' | 0 <= k' < k :: linked[k'] == messages[k'].(owner := Some(dir))
      invariant r == Put(objects, MessageDecls(messages[..k]))
    {
      MessageDeclsSnoc(messages, k);
      PutSnoc(objects, MessageDecls(messages[..k]), Decl(messages[k].fullName, MessageEntry(messages[k].fields)));
      linked := linked + [messages[k].(owner := Some(dir))];
      r := r[messages[k].fullName := MessageEntry(messages[k].fields)];
    }
    assert messages[..|messages|] == messages;
  }
}
