/**
 * The classification and linking pass of `finishParse` (internal/build/template.go:268-356):
 * every child is pointed at its file (methods at their service), and every repeated field
 * not yet classified becomes an array or, when its map-entry message has exactly the two
 * fields `key` and `value`, a map typed after them.
 */
module Classify {
  import opened Wrappers
  import opened Model

  /** Where a message sits: the index of its file and its index in that file. */
  datatype Pos = Pos(file: nat, message: nat)

  predicate ValidPos(files: seq<File>, p: Pos) {
    p.file < |files| && p.message < |files[p.file].messages|
  }

  /** Some message of some file is called `fullName`. */
  predicate HasMessageNamed(files: seq<File>, fullName: string) {
    exists i, j :: 0 <= i < |files| && 0 <= j < |files[i].messages| && files[i].messages[j].fullName == fullName
  }

  /** The first message called `fullName`, or `|messages|`. */
  function FirstMessageNamed(messages: seq<Message>, fullName: string): (j: nat)
    ensures j <= |messages|
    ensures j < |messages| ==> messages[j].fullName == fullName
    ensures forall k | 0 <= k < j :: messages[k].fullName != fullName
  {
    if |messages| == 0 then 0
    else if messages[0].fullName == fullName then 0
    else 1 + FirstMessageNamed(messages[1..], fullName)
  }

  /**
   * The map-entry search of `handleMapField`: the inner loop stops at the first match but the
   * outer one goes on, so the entry is the first match in the LAST file that has one.
   */
  function FindEntry(files: seq<File>, fullName: string): (r: Option<Pos>)
    ensures r.None? <==> !HasMessageNamed(files, fullName)
    ensures r.Some? ==> ValidPos(files, r.value) && files[r.value.file].messages[r.value.message].fullName == fullName
    ensures r.Some? ==> forall j | 0 <= j < r.value.message :: files[r.value.file].messages[j].fullName != fullName
    ensures r.Some? ==> forall i, j | r.value.file < i < |files| && 0 <= j < |files[i].messages| ::
      files[i].messages[j].fullName != fullName
  {
    if |files| == 0 then None
    else
      var last := |files| - 1;
      var j := FirstMessageNamed(files[last].messages, fullName);
      if j < |files[last].messages| then Some(Pos(last, j))
      else
        var r := FindEntry(files[..last], fullName);
        assert HasMessageNamed(files[..last], fullName) <==> HasMessageNamed(files, fullName) by {
          if HasMessageNamed(files, fullName) {
            var i, k :| 0 <= i < |files| && 0 <= k < |files[i].messages| && files[i].messages[k].fullName == fullName;
            assert i < last;
            assert files[..last][i] == files[i];
          }
        }
        r
  }

  /** The last field called `name` (the `switch` in `handleMapField` keeps overwriting). */
  function LastFieldNamed(fields: seq<Field>, name: string): (r: Option<Field>)
    ensures r.Some? ==> r.value in fields && r.value.name == name
    ensures r.None? <==> forall k | 0 <= k < |fields| :: fields[k].name != name
  {
    if |fields| == 0 then None
    else if fields[|fields| - 1].name == name then Some(fields[|fields| - 1])
    else
      var r := LastFieldNamed(fields[..|fields| - 1], name);
      assert forall k | 0 <= k < |fields| - 1 :: fields[..|fields| - 1][k] == fields[k];
      r
  }

  /** The field found is the last one with that name: no later field has it. */
  lemma {:induction false} LastFieldNamedIsLast(fields: seq<Field>, name: string) returns (k: nat)
    requires LastFieldNamed(fields, name).Some?
    ensures k < |fields| && fields[k] == LastFieldNamed(fields, name).value
    ensures forall k' | k < k' < |fields| :: fields[k'].name != name
  {
    var n := |fields| - 1;
    if fields[n].name == name {
      k := n;
    } else {
      var init := fields[..n];
      k := LastFieldNamedIsLast(init, name);
      assert fields[k] == init[k];
      assert forall k' | k < k' < n :: init[k'] == fields[k'];
    }
  }

  /** A field the pass still has to classify. */
  predicate Pending(f: Field) {
    f.fieldLabel == "repeated" && !f.done
  }

  /** A classified field: done, exactly one of array and map, and the label to match. */
  predicate IsClassified(f: Field) {
    f.done && f.isArray != f.isMap && f.fieldLabel == (if f.isMap then "map" else "array")
  }

  function AsArray(f: Field): Field {
    f.(fieldLabel := "array", isArray := true, isMap := false, done := true)
  }

  /** A map field: its value type is the entry's `value` field's, its key type the `key` field's. */
  function AsMap(f: Field, key: Field, value: Field): Field {
    f.(fieldLabel := "map", isArray := false, isMap := true,
       keyType := key.typ, keyLongType := key.longType, keyFullType := key.fullType,
       typ := value.typ, longType := value.longType, fullType := value.fullType,
       done := true)
  }

  /** A map entry as `handleMapField` accepts it: two fields, one `key` and one `value`. */
  predicate IsMapEntryShape(entry: Message) {
    |entry.fields| == 2 && LastFieldNamed(entry.fields, "key").Some? && LastFieldNamed(entry.fields, "value").Some?
  }

  /** The accepted entry shape is exactly "two fields whose names are `key` and `value`". */
  lemma {:induction false} MapEntryShapeNames(entry: Message)
    ensures IsMapEntryShape(entry) <==>
      |entry.fields| == 2 && {entry.fields[0].name, entry.fields[1].name} == {"key", "value"}
  {
    if |entry.fields| == 2 {
      var names := {entry.fields[0].name, entry.fields[1].name};
      var key := LastFieldNamed(entry.fields, "key");
      var value := LastFieldNamed(entry.fields, "value");
      if key.Some? && value.Some? {
        assert key.value.name in names && value.value.name in names;
        assert "key" != "value";
        assert names == {"key", "value"};
      }
      if names == {"key", "value"} {
        assert "key" in names && "value" in names;
        assert entry.fields[0].name == "key" || entry.fields[1].name == "key";
        assert entry.fields[0].name == "value" || entry.fields[1].name == "value";
      }
    }
  }

  /** What `handleMapField` does: the new field, and the entry it marks as a map entry. */
  datatype Outcome = Outcome(field: Field, entry: Option<Pos>)

  /** A field `handleMapField` would dereference a missing entry for (Go panics) is excluded. */
  predicate EntryAvailable(files: seq<File>, f: Field) {
    Pending(f) && f.isMap ==> HasMessageNamed(files, f.fullType)
  }

  function Classify(files: seq<File>, f: Field): (r: Outcome)
    requires EntryAvailable(files, f)
    ensures !Pending(f) ==> r == Outcome(f, None)
    ensures Pending(f) ==> IsClassified(r.field)
    ensures r.entry.Some? ==> ValidPos(files, r.entry.value)
    ensures r.field.name == f.name && r.field.description == f.description && r.field.options == f.options
    ensures r.field.isOneof == f.isOneof && r.field.oneofDecl == f.oneofDecl && r.field.defaultValue == f.defaultValue
  {
    if !Pending(f) then Outcome(f, None)
    else if !f.isMap then Outcome(AsArray(f), None)
    else
      var p := FindEntry(files, f.fullType).value;
      var entry := files[p.file].messages[p.message];
      var key := LastFieldNamed(entry.fields, "key");
      var value := LastFieldNamed(entry.fields, "value");
      if key.None? || value.None? || |entry.fields| != 2 then Outcome(AsArray(f), None)
      else Outcome(AsMap(f, key.value, value.value), Some(p))
  }

  /**
   * The classification rule: a pending field becomes a map exactly when it is flagged as a
   * map and its entry (as found by the search) has the accepted shape; it then takes the
   * value type from `value`, the key type from `key`, and the entry is marked. Every other
   * pending field becomes an array and no entry is marked.
   */
  lemma ClassifyRule(files: seq<File>, f: Field)
    requires EntryAvailable(files, f) && Pending(f)
    ensures var r := Classify(files, f);
      (r.field.isMap <==>
         f.isMap && IsMapEntryShape(files[FindEntry(files, f.fullType).value.file].messages[FindEntry(files, f.fullType).value.message]))
      && (r.field.isMap ==>
            var p := FindEntry(files, f.fullType).value;
            var entry := files[p.file].messages[p.message];
            r.entry == Some(p) &&
            r.field == AsMap(f, LastFieldNamed(entry.fields, "key").value, LastFieldNamed(entry.fields, "value").value))
      && (!r.field.isMap ==> r == Outcome(AsArray(f), None))
  {
  }

  /** A classified field is left alone by a second call, whatever the files are then. */
  lemma ClassifyIdempotent(files: seq<File>, f: Field, later: seq<File>)
    requires EntryAvailable(files, f)
    ensures EntryAvailable(later, Classify(files, f).field)
    ensures Classify(later, Classify(files, f).field) == Outcome(Classify(files, f).field, None)
  {
  }

  // Updating the files in place

  function SetField(files: seq<File>, fi: nat, mi: nat, k: nat, f: Field): seq<File>
    requires fi < |files| && mi < |files[fi].messages| && k < |files[fi].messages[mi].fields|
  {
    var file := files[fi];
    var m := file.messages[mi];
    files[fi := file.(messages := file.messages[mi := m.(fields := m.fields[k := f])])]
  }

  function MarkEntry(files: seq<File>, p: Pos): seq<File>
    requires ValidPos(files, p)
  {
    var file := files[p.file];
    files[p.file := file.(messages := file.messages[p.message := file.messages[p.message].(isMapEntry := true)])]
  }

  /** Every child of the file points at it, and every method at its service. */
  predicate Linked(file: File) {
    && (forall k | 0 <= k < |file.enums| :: file.enums[k].owner == Some(file.dir))
    && (forall k | 0 <= k < |file.extensions| :: file.extensions[k].owner == Some(file.dir))
    && (forall k | 0 <= k < |file.messages| :: file.messages[k].owner == Some(file.dir))
    && (forall k | 0 <= k < |file.services| :: file.services[k].owner == Some(file.dir) &&
          forall n | 0 <= n < |file.services[k].methods| ::
            file.services[k].methods[n].service == Some(file.services[k].fullName))
  }

  /** The service points at its file and each of its methods at it; nothing else changes. */
  function LinkMethods(s: Service, dir: string): (r: Service)
    ensures r == s.(owner := Some(dir), methods := r.methods)
    ensures |r.methods| == |s.methods|
    ensures forall n | 0 <= n < |s.methods| :: r.methods[n] == s.methods[n].(service := Some(s.fullName))
  {
    s.(owner := Some(dir),
       methods := seq(|s.methods|, n requires 0 <= n < |s.methods| => s.methods[n].(service := Some(s.fullName))))
  }

  /** The back-pointer assignments of `finishParse` for one file. */
  function LinkFile(file: File): (r: File)
    ensures Linked(r)
    ensures r == file.(enums := r.enums, extensions := r.extensions, messages := r.messages, services := r.services)
    ensures |r.enums| == |file.enums| && |r.messages| == |file.messages| && |r.services| == |file.services|
    ensures |r.extensions| == |file.extensions|
    ensures forall j | 0 <= j < |file.extensions| :: r.extensions[j] == file.extensions[j].(owner := Some(file.dir))
    ensures forall j | 0 <= j < |file.messages| :: r.messages[j] == file.messages[j].(owner := Some(file.dir))
    ensures forall j | 0 <= j < |file.enums| :: r.enums[j] == file.enums[j].(owner := Some(file.dir))
    ensures forall j | 0 <= j < |file.services| ::
      r.services[j] == LinkMethods(file.services[j], file.dir)
  {
    var d := file.dir;
    file.(
      enums := seq(|file.enums|, k requires 0 <= k < |file.enums| => file.enums[k].(owner := Some(d))),
      extensions := seq(|file.extensions|, k requires 0 <= k < |file.extensions| => file.extensions[k].(owner := Some(d))),
      messages := seq(|file.messages|, k requires 0 <= k < |file.messages| => file.messages[k].(owner := Some(d))),
      services := seq(|file.services|, k requires 0 <= k < |file.services| => LinkMethods(file.services[k], d)))
  }

  /** Linking twice is linking once. */
  lemma LinkFileIdempotent(file: File)
    ensures LinkFile(LinkFile(file)) == LinkFile(file)
  {
    var once := LinkFile(file);
    var twice := LinkFile(once);
    assert twice.enums == once.enums;
    assert twice.extensions == once.extensions;
    assert twice.messages == once.messages;
    forall k | 0 <= k < |once.services|
      ensures twice.services[k] == once.services[k]
    {
      assert twice.services[k].methods == once.services[k].methods;
    }
    assert twice.services == once.services;
  }

  // How far the pass has got: the relation between the files before and after some steps

  /** One field either kept, or a pending field classified. */
  predicate FieldStep(before: Field, after: Field) {
    before == after || (Pending(before) && IsClassified(after))
  }

  predicate MessageProgress(before: Message, after: Message) {
    before.fullName == after.fullName && |before.fields| == |after.fields| &&
    forall k | 0 <= k < |before.fields| :: FieldStep(before.fields[k], after.fields[k])
  }

  predicate FileProgress(before: File, after: File) {
    && before.dir == after.dir
    && (Linked(before) ==> Linked(after))
    && |before.messages| == |after.messages|
    && forall j | 0 <= j < |before.messages| :: MessageProgress(before.messages[j], after.messages[j])
  }

  /**
   * The files after some steps of the pass: same files, messages and field counts, message
   * names and directories unchanged, linked files still linked, and every field either
   * untouched or a formerly pending field now classified.
   */
  predicate Progress(before: seq<File>, after: seq<File>) {
    |before| == |after| && forall i | 0 <= i < |before| :: FileProgress(before[i], after[i])
  }

  lemma ProgressReflexive(files: seq<File>)
    ensures Progress(files, files)
  {
  }

  lemma {:induction false} ProgressTransitive(a: seq<File>, b: seq<File>, c: seq<File>)
    requires Progress(a, b) && Progress(b, c)
    ensures Progress(a, c)
  {
    forall i | 0 <= i < |a|
      ensures FileProgress(a[i], c[i])
    {
      forall j | 0 <= j < |a[i].messages|
        ensures MessageProgress(a[i].messages[j], c[i].messages[j])
      {
        var x, y, z := a[i].messages[j], b[i].messages[j], c[i].messages[j];
        assert MessageProgress(x, y) && MessageProgress(y, z);
        forall k | 0 <= k < |x.fields|
          ensures FieldStep(x.fields[k], z.fields[k])
        {
          assert FieldStep(x.fields[k], y.fields[k]);
          assert FieldStep(y.fields[k], z.fields[k]);
        }
      }
    }
  }

  /** The search only looks at message names, which the pass never changes. */
  lemma {:induction false} ProgressKeepsNames(a: seq<File>, b: seq<File>, fullName: string)
    requires Progress(a, b)
    ensures HasMessageNamed(a, fullName) <==> HasMessageNamed(b, fullName)
    ensures FindEntry(a, fullName) == FindEntry(b, fullName)
    decreases |a|
  {
    if HasMessageNamed(a, fullName) {
      var i, j :| 0 <= i < |a| && 0 <= j < |a[i].messages| && a[i].messages[j].fullName == fullName;
      assert MessageProgress(a[i].messages[j], b[i].messages[j]);
    }
    if HasMessageNamed(b, fullName) {
      var i, j :| 0 <= i < |b| && 0 <= j < |b[i].messages| && b[i].messages[j].fullName == fullName;
      assert FileProgress(a[i], b[i]);
      assert MessageProgress(a[i].messages[j], b[i].messages[j]);
    }
    if |a| > 0 {
      var last := |a| - 1;
      assert FileProgress(a[last], b[last]);
      assert forall j | 0 <= j < |a[last].messages| :: a[last].messages[j].fullName == b[last].messages[j].fullName;
      FirstMessageNamedSame(a[last].messages, b[last].messages, fullName);
      ProgressKeepsNames(a[..last], b[..last], fullName);
    }
  }

  lemma {:induction false} FirstMessageNamedSame(a: seq<Message>, b: seq<Message>, fullName: string)
    requires |a| == |b| && forall j | 0 <= j < |a| :: a[j].fullName == b[j].fullName
    ensures FirstMessageNamed(a, fullName) == FirstMessageNamed(b, fullName)
  {
    if |a| > 0 && a[0].fullName != fullName {
      FirstMessageNamedSame(a[1..], b[1..], fullName);
    }
  }

  /** No pending field has a missing entry (the precondition of every `handleMapField`). */
  predicate EntriesAvailable(files: seq<File>) {
    forall i, j, k | 0 <= i < |files| && 0 <= j < |files[i].messages| && 0 <= k < |files[i].messages[j].fields| ::
      EntryAvailable(files, files[i].messages[j].fields[k])
  }

  lemma ProgressKeepsEntries(a: seq<File>, b: seq<File>)
    requires Progress(a, b) && EntriesAvailable(a)
    ensures EntriesAvailable(b)
  {
    forall i, j, k | 0 <= i < |b| && 0 <= j < |b[i].messages| && 0 <= k < |b[i].messages[j].fields|
      ensures EntryAvailable(b, b[i].messages[j].fields[k])
    {
      assert FileProgress(a[i], b[i]);
      assert MessageProgress(a[i].messages[j], b[i].messages[j]);
      var x := a[i].messages[j].fields[k];
      assert FieldStep(x, b[i].messages[j].fields[k]);
      assert EntryAvailable(a, x);
      ProgressKeepsNames(a, b, x.fullType);
    }
  }

  /** Writing a field back unchanged leaves the files as they were. */
  lemma SetFieldSame(files: seq<File>, fi: nat, mi: nat, k: nat)
    requires ValidField(files, fi, mi, k)
    ensures SetField(files, fi, mi, k, files[fi].messages[mi].fields[k]) == files
  {
    var file := files[fi];
    var m := file.messages[mi];
    assert m.fields[k := m.fields[k]] == m.fields;
    assert file.messages[mi := m] == file.messages;
    assert files[fi := file] == files;
  }

  lemma SetFieldProgress(files: seq<File>, fi: nat, mi: nat, k: nat, f: Field)
    requires fi < |files| && mi < |files[fi].messages| && k < |files[fi].messages[mi].fields|
    requires FieldStep(files[fi].messages[mi].fields[k], f)
    ensures Progress(files, SetField(files, fi, mi, k, f))
    ensures ValidField(SetField(files, fi, mi, k, f), fi, mi, k) && SetField(files, fi, mi, k, f)[fi].messages[mi].fields[k] == f
  {
    var r := SetField(files, fi, mi, k, f);
    assert FileProgress(files[fi], r[fi]) by {
      assert MessageProgress(files[fi].messages[mi], r[fi].messages[mi]);
      assert forall j | 0 <= j < |files[fi].messages| && j != mi :: r[fi].messages[j] == files[fi].messages[j];
    }
  }

  lemma MarkEntryProgress(files: seq<File>, p: Pos)
    requires ValidPos(files, p)
    ensures Progress(files, MarkEntry(files, p))
  {
    var r := MarkEntry(files, p);
    assert FileProgress(files[p.file], r[p.file]) by {
      assert forall j | 0 <= j < |files[p.file].messages| && j != p.message ::
        r[p.file].messages[j] == files[p.file].messages[j];
      assert MessageProgress(files[p.file].messages[p.message], r[p.file].messages[p.message]);
    }
  }

  predicate ValidField(files: seq<File>, fi: nat, mi: nat, k: nat) {
    fi < |files| && mi < |files[fi].messages| && k < |files[fi].messages[mi].fields|
  }

  /** The files after `handleMapField` on the field at (fi, mi, k): the entry is marked first. */
  function ClassifyAt(files: seq<File>, fi: nat, mi: nat, k: nat): seq<File>
    requires ValidField(files, fi, mi, k) && EntriesAvailable(files)
  {
    var o := Classify(files, files[fi].messages[mi].fields[k]);
    var marked := if o.entry.Some? then MarkEntry(files, o.entry.value) else files;
    SetField(marked, fi, mi, k, o.field)
  }

  /**
   * One `handleMapField` step is progress: the field becomes `Classify`'s field (no longer
   * pending), the entry it names is marked, and no other field changes.
   */
  lemma ClassifyAtProgress(files: seq<File>, fi: nat, mi: nat, k: nat)
    requires ValidField(files, fi, mi, k) && EntriesAvailable(files)
    ensures var r := ClassifyAt(files, fi, mi, k);
      && Progress(files, r) && EntriesAvailable(r) && ValidField(r, fi, mi, k)
      && !Pending(r[fi].messages[mi].fields[k])
      && var o := Classify(files, files[fi].messages[mi].fields[k]);
      && r[fi].messages[mi].fields[k] == o.field
      && (o.entry.Some? ==> r[o.entry.value.file].messages[o.entry.value.message].isMapEntry)
  {
    var f := files[fi].messages[mi].fields[k];
    var o := Classify(files, f);
    var marked := if o.entry.Some? then MarkEntry(files, o.entry.value) else files;
    if o.entry.Some? {
      MarkEntryProgress(files, o.entry.value);
      MarkEntryFacts(files, o.entry.value, fi, mi, k);
    } else {
      ProgressReflexive(files);
    }
    SetFieldProgress(marked, fi, mi, k, o.field);
    var r := SetField(marked, fi, mi, k, o.field);
    if o.entry.Some? {
      SetFieldFacts(marked, fi, mi, k, o.field, o.entry.value);
    }
    ProgressTransitive(files, marked, r);
    ProgressKeepsEntries(files, r);
  }

  lemma MarkEntryFacts(files: seq<File>, p: Pos, fi: nat, mi: nat, k: nat)
    requires ValidPos(files, p) && ValidField(files, fi, mi, k)
    ensures var r := MarkEntry(files, p);
      ValidField(r, fi, mi, k) && r[fi].messages[mi].fields[k] == files[fi].messages[mi].fields[k] &&
      r[p.file].messages[p.message].isMapEntry
  {
  }

  lemma SetFieldFacts(files: seq<File>, fi: nat, mi: nat, k: nat, f: Field, p: Pos)
    requires ValidField(files, fi, mi, k) && ValidPos(files, p)
    ensures var r := SetField(files, fi, mi, k, f);
      ValidField(r, fi, mi, k) && r[fi].messages[mi].fields[k] == f && ValidPos(r, p) &&
      r[p.file].messages[p.message].isMapEntry == files[p.file].messages[p.message].isMapEntry
  {
  }

  /** Every field of the message is classified or was never pending. */
  predicate MessageDone(m: Message) {
    forall k | 0 <= k < |m.fields| :: !Pending(m.fields[k])
  }

  predicate FileDone(file: File) {
    forall j | 0 <= j < |file.messages| :: MessageDone(file.messages[j])
  }

  /** A field that is not pending is never touched again. */
  lemma ProgressKeepsDone(a: seq<File>, b: seq<File>, fi: nat, mi: nat, k: nat)
    requires Progress(a, b) && ValidField(a, fi, mi, k) && !Pending(a[fi].messages[mi].fields[k])
    ensures ValidField(b, fi, mi, k) && b[fi].messages[mi].fields[k] == a[fi].messages[mi].fields[k]
  {
    assert FileProgress(a[fi], b[fi]);
    assert MessageProgress(a[fi].messages[mi], b[fi].messages[mi]);
  }

  /** The inner loop of `finishParse`: the fields of one message from position `k` on. */
  function ClassifyFields(files: seq<File>, fi: nat, mi: nat, k: nat): (r: seq<File>)
    requires fi < |files| && mi < |files[fi].messages| && k <= |files[fi].messages[mi].fields|
    requires EntriesAvailable(files)
    ensures Progress(files, r) && EntriesAvailable(r)
    ensures forall k' | k <= k' < |files[fi].messages[mi].fields| :: !Pending(r[fi].messages[mi].fields[k'])
    decreases |files[fi].messages[mi].fields| - k
  {
    if k == |files[fi].messages[mi].fields| then
      ProgressReflexive(files);
      files
    else
      var next := ClassifyAt(files, fi, mi, k);
      ClassifyAtProgress(files, fi, mi, k);
      assert FileProgress(files[fi], next[fi]) && MessageProgress(files[fi].messages[mi], next[fi].messages[mi]);
      var r := ClassifyFields(next, fi, mi, k + 1);
      ProgressTransitive(files, next, r);
      ProgressKeepsDone(next, r, fi, mi, k);
      r
  }

  /** One step of the field loop. */
  lemma ClassifyFieldsUnfold(files: seq<File>, fi: nat, mi: nat, k: nat)
    requires ValidField(files, fi, mi, k) && EntriesAvailable(files)
    ensures ValidField(ClassifyAt(files, fi, mi, k), fi, mi, k) && EntriesAvailable(ClassifyAt(files, fi, mi, k))
    ensures |ClassifyAt(files, fi, mi, k)[fi].messages[mi].fields| == |files[fi].messages[mi].fields|
    ensures ClassifyFields(files, fi, mi, k) == ClassifyFields(ClassifyAt(files, fi, mi, k), fi, mi, k + 1)
  {
    var next := ClassifyAt(files, fi, mi, k);
    ClassifyAtProgress(files, fi, mi, k);
    assert FileProgress(files[fi], next[fi]) && MessageProgress(files[fi].messages[mi], next[fi].messages[mi]);
  }

  /** The message loop of `finishParse` for one file, from message `mi` on. */
  function ClassifyMessages(files: seq<File>, fi: nat, mi: nat): (r: seq<File>)
    requires fi < |files| && mi <= |files[fi].messages|
    requires EntriesAvailable(files)
    ensures Progress(files, r) && EntriesAvailable(r)
    ensures forall j | mi <= j < |files[fi].messages| :: MessageDone(r[fi].messages[j])
    decreases |files[fi].messages| - mi
  {
    if mi == |files[fi].messages| then
      ProgressReflexive(files);
      files
    else
      var next := ClassifyFields(files, fi, mi, 0);
      assert FileProgress(files[fi], next[fi]) && MessageProgress(files[fi].messages[mi], next[fi].messages[mi]);
      var r := ClassifyMessages(next, fi, mi + 1);
      ProgressTransitive(files, next, r);
      assert MessageDone(r[fi].messages[mi]) by {
        forall k | 0 <= k < |next[fi].messages[mi].fields|
          ensures !Pending(r[fi].messages[mi].fields[k])
        {
          ProgressKeepsDone(next, r, fi, mi, k);
        }
      }
      r
  }

  /** One step of the message loop. */
  lemma ClassifyMessagesUnfold(files: seq<File>, fi: nat, mi: nat)
    requires fi < |files| && mi < |files[fi].messages| && EntriesAvailable(files)
    ensures |ClassifyFields(files, fi, mi, 0)| == |files|
    ensures |ClassifyFields(files, fi, mi, 0)[fi].messages| == |files[fi].messages|
    ensures ClassifyMessages(files, fi, mi) == ClassifyMessages(ClassifyFields(files, fi, mi, 0), fi, mi + 1)
  {
    var next := ClassifyFields(files, fi, mi, 0);
    assert FileProgress(files[fi], next[fi]);
  }

  function LinkAt(files: seq<File>, fi: nat): (r: seq<File>)
    requires fi < |files|
    ensures Progress(files, r) && Linked(r[fi])
    ensures EntriesAvailable(files) ==> EntriesAvailable(r)
  {
    var r := files[fi := LinkFile(files[fi])];
    assert FileProgress(files[fi], r[fi]) by {
      forall j | 0 <= j < |files[fi].messages|
        ensures MessageProgress(files[fi].messages[j], r[fi].messages[j])
      {
        assert r[fi].messages[j].fields == files[fi].messages[j].fields;
      }
    }
    assert forall i | 0 <= i < |files| && i != fi :: r[i] == files[i];
    assert EntriesAvailable(files) ==> EntriesAvailable(r) by {
      if EntriesAvailable(files) { ProgressKeepsEntries(files, r); }
    }
    r
  }

  /**
   * The file loop of `finishParse`, from file `fi` on: link the file's children, then
   * classify its messages' fields in order.
   */
  function FinishFiles(files: seq<File>, fi: nat): (r: seq<File>)
    requires fi <= |files| && EntriesAvailable(files)
    ensures Progress(files, r) && EntriesAvailable(r)
    ensures forall i | fi <= i < |files| :: FileDone(r[i]) && Linked(r[i])
    decreases |files| - fi
  {
    if fi == |files| then
      ProgressReflexive(files);
      files
    else
      var linked := LinkAt(files, fi);
      var next := ClassifyMessages(linked, fi, 0);
      var r := FinishFiles(next, fi + 1);
      ProgressTransitive(files, linked, next);
      ProgressTransitive(files, next, r);
      assert FileProgress(next[fi], r[fi]);
      assert FileProgress(linked[fi], next[fi]);
      assert FileDone(r[fi]) by {
        forall j, k | 0 <= j < |next[fi].messages| && 0 <= k < |next[fi].messages[j].fields|
          ensures !Pending(r[fi].messages[j].fields[k])
        {
          assert MessageDone(next[fi].messages[j]);
          ProgressKeepsDone(next, r, fi, j, k);
        }
      }
      r
  }

  /** One step of the file loop: link the file, then classify its messages. */
  lemma FinishFilesUnfold(files: seq<File>, fi: nat)
    requires fi < |files| && EntriesAvailable(files)
    ensures EntriesAvailable(LinkAt(files, fi)) && |LinkAt(files, fi)| == |files|
    ensures |ClassifyMessages(LinkAt(files, fi), fi, 0)| == |files|
    ensures EntriesAvailable(ClassifyMessages(LinkAt(files, fi), fi, 0))
    ensures FinishFiles(files, fi) == FinishFiles(ClassifyMessages(LinkAt(files, fi), fi, 0), fi + 1)
  {
  }

  /**
   * After the whole pass every file is linked, no field is left pending, every field that was
   * pending is classified, and every other field is as it was.
   */
  lemma FinishFilesClassifiesAll(files: seq<File>)
    requires EntriesAvailable(files)
    ensures var r := FinishFiles(files, 0);
      && |r| == |files|
      && (forall i | 0 <= i < |r| :: Linked(r[i]) && FileDone(r[i]) && r[i].dir == files[i].dir)
      && (forall i, j, k | 0 <= i < |files| && 0 <= j < |files[i].messages| && 0 <= k < |files[i].messages[j].fields| ::
            ValidField(r, i, j, k) &&
            var before := files[i].messages[j].fields[k];
            var after := r[i].messages[j].fields[k];
            (Pending(before) ==> IsClassified(after)) && (!Pending(before) ==> after == before))
  {
    var r := FinishFiles(files, 0);
    forall i, j, k | 0 <= i < |files| && 0 <= j < |files[i].messages| && 0 <= k < |files[i].messages[j].fields|
      ensures ValidField(r, i, j, k)
      ensures var before := files[i].messages[j].fields[k];
        var after := r[i].messages[j].fields[k];
        (Pending(before) ==> IsClassified(after)) && (!Pending(before) ==> after == before)
    {
      assert FileProgress(files[i], r[i]);
      assert MessageProgress(files[i].messages[j], r[i].messages[j]);
      assert FieldStep(files[i].messages[j].fields[k], r[i].messages[j].fields[k]);
    }
  }
}
