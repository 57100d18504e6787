# proto-gen-doc core, modelled in Dafny

proto-gen-doc renders documentation for protobuf services from JSON descriptions of the
`.proto` files. Its core is the `Template` that gathers those descriptions
(`internal/build/template.go`), the `Renderer` that groups them into packages
(`internal/build/renderer.go`), and the text filters the HTML/Markdown templates call
(`internal/build/filter.go`). This project models that core and proves what it promises:

- `wrappers.dfy`, `strings.dfy`: `Option`/`Result`, Go's byte-wise string order, sorting by
  a key (specified as "sorted and a permutation", since `sort.Slice` is not stable), `Join`.
- `model.dfy` (module `Model`): the descriptor records (`File`, `Message`, `MessageField`,
  `Enum`, `EnumValue`, `Service`, `ServiceMethod`, `ScalarValue`, options, JSON shapes) as
  datatypes. A back-pointer of the source (a message's file, a method's service) is kept
  as the name of what it points to.
- `merge.dfy` (module `Merge`): `appendFile` and `appendScalarValue` and the merge loop of
  `ParseFiles`, as functions over the file and scalar lists.
- `classify.dfy` (module `Classify`): `finishParse`'s linking and `handleMapField`'s
  classification of fields into plain, repeated and map fields, as functions, with a
  `Progress` relation that the pass preserves.
- `sortpass.dfy` (module `SortPass`): what `sort` guarantees, as a relation between files.
- `shape.dfy` (module `Shapes`): the registry of `buildMessagesJsonString`, the recursive
  resolver `fromObjectName`/`fromMessage`/`fromScalarValue`/`fromEnum`, and
  `deepJSONObject`.
- `options.dfy` (module `OptionQueries`): the option listings and filters of messages,
  enums and services.
- `template.dfy` (module `Templates`): the `Template` class. Its fields `files` and
  `scalars` are updated in place by methods that are proved against the functions above.
- `renderer.dfy` (module `Rendering`): the `Renderer` class and the data preparation at the
  start of `Render`.
- `filter.dfy` (module `Filter`): the six filters, with the fixed regular expressions
  replaced by hand-written scanners.

The file system is a parameter. `filepath.Dir(filepath.Clean(name))` is the function
`dirOf`, and reading and decoding a JSON file is replaced by an already decoded `Fragment`.
HTML escaping is the parameter `escape` of `NoBrFilter`.

## Model

| member | source | states |
|---|---|---|
| Model.OptionNamed | internal/build/template.go:408-414 | the `Option` accessor of every entity: the named option when it is set, and nil exactly when it is not (the same for lines 452-458, 553-559, 582-589, 633-640, 653-660, 712-719) |
| Strings.LessTransitive | internal/build/renderer.go:61-63 | the `strings.Compare(a, b) < 0` order that every sort uses is transitive |
| Strings.LessTrichotomous | internal/build/renderer.go:61-63 | two different strings are always ordered one way or the other, so a sort result is determined up to ties |
| Strings.SortByKey | internal/build/template.go:358-388 | the result is ordered by the key and is a permutation of the input |
| Merge.FindDir | internal/build/template.go:211-216 | the index of the first file in the directory, or the length when there is none |
| Merge.AppendFileDropsValidate | internal/build/template.go:203-205 | the file `validate/validate.proto` is ignored and the list is unchanged |
| Merge.AppendFileNew | internal/build/template.go:218-221 | a file from a new directory is appended, stamped with its directory |
| Merge.AppendFileMismatch | internal/build/template.go:223-225 | a file whose directory is known but whose package differs is an error naming both files |
| Merge.AppendFileMerged | internal/build/template.go:227-250 | a file from a known directory with the same package is merged into that file: its enums, messages, services and extensions are appended, the services are re-pointed at the older file, and the older file's remaining fields are kept |
| Merge.AppendFileError | internal/build/template.go:202-251 | `appendFile` fails exactly when the file is not `validate/validate.proto` and a file in its directory has another package |
| Merge.AppendFileKeepsDirsDistinct | internal/build/template.go:211-221 | after any `appendFile` no two files share a directory |
| Merge.AppendFilesKeepsDirsDistinct | internal/build/template.go:27-32 | the file loop of `ParseFiles` keeps the directories distinct and never loses one |
| Merge.AddScalar | internal/build/template.go:253-266 | a scalar type already present is ignored, a new one is appended |
| Merge.FirstWithAppend | internal/build/template.go:253-266 | the first scalar with a given type in a concatenation comes from the first part that has one |
| Merge.AddScalarKeepsDistinct | internal/build/template.go:253-266 | the scalar table never holds two entries of the same protobuf type |
| Merge.AddScalarsFirstWins | internal/build/template.go:34-36 | after the scalar loop the table has distinct types, holds exactly the types seen, and keeps the first entry seen for each |
| Merge.HasProtoAppend | internal/build/template.go:253-266 | a type is in a concatenation exactly when it is in one of the parts |
| Merge.MergeFragmentsInvariants | internal/build/template.go:21-37 | the merge loop over all fragments keeps the directories distinct and the scalar types distinct, and never loses a directory |
| Classify.FirstMessageNamed | internal/build/template.go:314-321 | the index of the first message with the full name, or the length |
| Classify.FindEntry | internal/build/template.go:314-321 | the entry message is the first message with that full name in the LAST file that has one (the `break` leaves only the inner loop), and there is none exactly when no file has such a message |
| Classify.LastFieldNamed | internal/build/template.go:323-332 | the key and value fields are fields of the entry with that name, and none exists exactly when the entry has no such field |
| Classify.LastFieldNamedIsLast | internal/build/template.go:323-332 | the field found is a field of the entry and no later field has its name, so the last `key` or `value` wins |
| Classify.MapEntryShapeNames | internal/build/template.go:334-340 | an entry counts as a map entry exactly when it has two fields and they are called `key` and `value` |
| Classify.Classify | internal/build/template.go:298-356 | a field already classified is left alone, a pending field becomes classified, and only the kind fields change |
| Classify.ClassifyRule | internal/build/template.go:306-355 | a pending field becomes a map exactly when it is marked as a map and its entry has the map-entry shape; the map takes its key types from the entry's `key` field, its value types from the `value` field, and the entry is marked; any other pending field becomes an array field |
| Classify.ClassifyIdempotent | internal/build/template.go:302-304 | a field classified once is never reclassified |
| Classify.LinkFile | internal/build/template.go:269-292 | every enum, extension, message and service is pointed at its file and every method at its service, and nothing else in the file, its services or its methods changes |
| Classify.LinkFileIdempotent | internal/build/template.go:269-292 | linking twice is linking once |
| Classify.ProgressTransitive | internal/build/template.go:268-296 | steps of the pass compose |
| Classify.ProgressKeepsNames | internal/build/template.go:314-321 | the pass never changes which messages exist, so every entry lookup gives the same answer before and after any step |
| Classify.SetFieldProgress | internal/build/template.go:342-355 | replacing a field by its classified form is a step of the pass |
| Classify.MarkEntryProgress | internal/build/template.go:342 | marking the entry message as a map entry is a step of the pass |
| Classify.ClassifyAtProgress | internal/build/template.go:298-356 | one `handleMapField` call is a step of the pass, keeps every entry available, and leaves the field classified |
| Classify.ClassifyFields | internal/build/template.go:281-283 | the fields loop classifies every field from the index on |
| Classify.ClassifyMessages | internal/build/template.go:280-284 | the message loop leaves every message from the index on with every field classified |
| Classify.LinkAt | internal/build/template.go:269-292 | linking one file is a step of the pass and leaves that file linked |
| Classify.FinishFiles | internal/build/template.go:268-296 | after the pass every file from the index on is linked and all of its fields are classified |
| Classify.FinishFilesClassifiesAll | internal/build/template.go:268-296 | after `finishParse` every file is linked, every field that was pending is classified, and every other field is unchanged |
| SortPass.SortFile | internal/build/template.go:359-376 | inside a file, enums, messages and services are sorted permutations by name, and every service's methods too |
| SortPass.SortPassOrdered | internal/build/template.go:358-388 | after `sort` the files are in package order and every list inside every file is in name order |
| SortPass.SortPassKeepsFiles | internal/build/template.go:358-388 | `sort` neither loses nor invents a file. The result has the input's length, every result file is some input file sorted inside, and every input file, sorted inside, is in the result. The permutation itself is part of `SortPass.SortPassOf` |
| Shapes.PutLookup | internal/build/template.go:80-94 | a name is registered when it was there before or is declared, and the last declaration of a name wins |
| Shapes.PutAppend | internal/build/template.go:80-94 | registering two lists one after the other is registering their concatenation |
| Shapes.FileDeclsSnoc | internal/build/template.go:80-90 | the registration loop declares one file's enums, then its messages, after those of the earlier files |
| Shapes.LastDeclAppend | internal/build/template.go:80-94 | in a concatenation the last declaration of a name is in the second part when it has one |
| Shapes.LastScalarDecl | internal/build/template.go:92-94 | the scalar declarations name exactly the scalar types, each as a scalar entry |
| Shapes.RegistryScalarsWin | internal/build/template.go:92-94 | a scalar type is registered as a scalar even when a message or well-known type has the same name, since the scalars are registered last |
| Shapes.LastFileDecl | internal/build/template.go:80-90 | the file declarations name exactly the enums and messages of the files |
| Shapes.RegistryNames | internal/build/template.go:53-94 | the registry holds exactly the well-known names, the enums and messages and the scalar types, and keeps a well-known entry that nothing redeclares |
| Shapes.FromScalarValue | internal/build/template.go:113-128 | a scalar is its own type name when the type is one of the thirteen listed kinds, and an unknown-scalar error otherwise |
| Shapes.FixedKindsRejected | internal/build/template.go:114-124 | `fixed32` and `fixed64` are not on the list and fail, while `sfixed32` passes |
| Shapes.FromFieldsKeys | internal/build/template.go:130-155 | a resolved message has exactly one key per distinct field name |
| Shapes.FromFieldsOk | internal/build/template.go:130-155 | a message resolves exactly when every one of its fields resolves |
| Shapes.FromFieldsFirstError | internal/build/template.go:130-155 | when a message fails, its error is that of a failing field before which every field resolves |
| Shapes.FromFieldsLastWins | internal/build/template.go:130-155 | when two fields share a name, the later field's shape is kept |
| Shapes.FieldShapeForms | internal/build/template.go:135-152 | an array field is a one-element list of its type's shape, a map field is a one-entry object keyed by its key type's scalar name, a map whose key is not a scalar is an error, and any other field is its type's shape |
| Shapes.FromObjectName | internal/build/template.go:157-181 | the method computes the shape registered under the name |
| Shapes.FromMessage | internal/build/template.go:130-155 | the loop over the fields computes the message's shape, stopping at the first error |
| Shapes.FromFieldsPrefixError | internal/build/template.go:136-139 | when a field fails, the fields after it do not change the result |
| Shapes.ShapeOfEntries | internal/build/template.go:157-181 | an unknown name is an error, an enum is `int64`, a well-known type is its table entry, a scalar goes through the whitelist, and a message is the object of its fields |
| Shapes.WellKnownTimes | internal/build/template.go:53-78 | a `google.protobuf.Timestamp` that nothing redeclares is shown as seconds and nanos |
| Shapes.ShapeMessage | internal/build/template.go:96-106 | a message whose shape resolves gets that shape as its JSON object, with one key per distinct field name, and one whose shape fails is left as it was |
| Shapes.ShapeFile | internal/build/template.go:96-106 | every message of the file is shaped and nothing else in the file changes |
| Shapes.RelinkFile | internal/build/template.go:80-90 | the registration loop points every enum and message at its file and changes nothing else |
| Shapes.RelinkKeepsDecls | internal/build/template.go:80-90 | re-pointing enums and messages at their file does not change what is registered |
| Shapes.DeepKeepsOuterShape | internal/build/template.go:460-488 | a string is kept, depth zero empties a list or an object, and otherwise the list length and the object keys are kept |
| Shapes.DeepNegativeIsIdentity | internal/build/template.go:460-488 | a negative depth never reaches zero, so nothing is cut |
| Shapes.DeepIdempotent | internal/build/template.go:460-488 | truncating twice to the same depth is truncating once |
| Shapes.DeepJSONObject | internal/build/template.go:460-488 | the recursive method with its loops over lists and objects computes the truncation |
| OptionQueries.OptionNameSetMembers | internal/build/template.go:499-506 | the set of option names holds exactly the names set on some item |
| OptionQueries.WithOptionMembers | internal/build/template.go:518-529 | the filtered list holds exactly the items that set the option, in their order |
| OptionQueries.SortedDistinctIsStrict | internal/build/template.go:507-513 | a sorted list of distinct names is strictly increasing |
| OptionQueries.CollectOptionNames | internal/build/template.go:499-506 | the loops collect the set of option names of the items |
| OptionQueries.SetToList | internal/build/template.go:507-513 | the set becomes a list of its members without repeats |
| OptionQueries.OptionNames | internal/build/template.go:498-514 | the names are exactly those set on some item, strictly increasing |
| OptionQueries.ItemsWithOption | internal/build/template.go:518-529 | the loop keeps exactly the items that set the option, in order |
| OptionQueries.FieldOptions | internal/build/template.go:498-514 | the options set on some field of the message, sorted and without repeats |
| OptionQueries.FieldsWithOption | internal/build/template.go:518-529 | the fields that set the option, in field order |
| OptionQueries.ValueOptions | internal/build/template.go:591-607 | the options set on some value of the enum, sorted and without repeats |
| OptionQueries.ValuesWithOption | internal/build/template.go:611-622 | the values that set the option, in value order |
| OptionQueries.MethodOptions | internal/build/template.go:662-678 | the options set on some method of the service, sorted and without repeats |
| OptionQueries.MethodsWithOption | internal/build/template.go:682-693 | the methods that set the option, in method order |
| Templates.Template.AppendFile | internal/build/template.go:202-251 | the file list becomes what `Merge.AppendFile` gives, or stays unchanged on the error |
| Templates.Template.AppendScalarValue | internal/build/template.go:253-266 | the scalar table becomes `Merge.AddScalar` of the old one |
| Templates.Template.AppendFiles | internal/build/template.go:27-32 | the file loop of one fragment, stopping at the first error |
| Templates.Template.AppendScalarValues | internal/build/template.go:34-36 | the scalar loop of one fragment |
| Templates.Template.MergeAll | internal/build/template.go:21-37 | the merge loop over all fragments, stopping at the first error |
| Templates.Template.HandleMapField | internal/build/template.go:298-356 | one field is classified in place, as `Classify.ClassifyAt` describes |
| Templates.Template.ClassifyMessagesStep | internal/build/template.go:280-284 | the message loop of one file leaves the files as `Classify.ClassifyMessages` gives them |
| Templates.Template.ClassifyFieldsStep | internal/build/template.go:281-283 | the field loop of one message leaves the files as `Classify.ClassifyFields` gives them |
| Templates.Template.FinishParse | internal/build/template.go:268-296 | the files end up linked, classified and then sorted |
| Templates.Template.Sort | internal/build/template.go:358-388 | the files end up as a result of the sort pass |
| Templates.Template.BuildMessagesJsonString | internal/build/template.go:52-107 | every message gets the example shape resolved in the registry of the files and scalars, and every enum and message is pointed at its file |
| Templates.Template.RegisterFiles | internal/build/template.go:80-90 | the registry is the well-known table with every enum and message of every file declared, in file order |
| Templates.RegisterAll | internal/build/template.go:80-90 | the loop over the files declares every file's enums and messages in order after the well-known table and relinks every file |
| Templates.RegisterFile | internal/build/template.go:80-90 | one file: its enums and then its messages are declared, and the file is relinked |
| Templates.Template.RegisterScalars | internal/build/template.go:92-94 | the scalars are declared last |
| Templates.Template.ShapeAll | internal/build/template.go:96-106 | every file is shaped against the registry |
| Templates.Template.ParseFiles | internal/build/template.go:20-42 | the first merge error is returned with the files and scalars as far as they got; otherwise the files are finished, sorted and shaped |
| Templates.RegisterEnums | internal/build/template.go:81-84 | each enum is declared under its full name and pointed at its file |
| Templates.RegisterMessages | internal/build/template.go:86-89 | each message is declared under its full name with its fields and pointed at its file |
| Templates.SearchEntry | internal/build/template.go:314-321 | the scan over all files finds the entry that `Classify.FindEntry` specifies |
| Templates.PickKeyValue | internal/build/template.go:323-332 | the `switch` over the entry's fields keeps the last `key` and the last `value` field |
| Rendering.ServicesOfMembers | internal/build/renderer.go:34-47 | a package gathers exactly the services of the files declaring it |
| Rendering.GroupByPackage | internal/build/renderer.go:34-47 | one package per package name of the files, each with all of its files' services in file order |
| Rendering.SelectedServices | internal/build/renderer.go:49-59 | every service of a file outside the error-code packages is listed under its package |
| Rendering.SelectedOnlyServices | internal/build/renderer.go:49-59 | a listed package holds only services of files that declare it |
| Rendering.SelectPackages | internal/build/renderer.go:49-59 | every package except the `.ErrCode` ones is added once, its services sorted by full name |
| Rendering.LastErrFileSpec | internal/build/renderer.go:65-69 | the error-code file is the last file of an `.ErrCode` package, and stays as it was when there is none |
| Rendering.LastErrFileNone | internal/build/renderer.go:65-69 | without an `.ErrCode` file the error-code file keeps its earlier value |
| Rendering.LastErrFileAt | internal/build/renderer.go:65-69 | when some file is in an `.ErrCode` package, the result is such a file at that index or later, with none after it |
| Rendering.Renderer.Prepare | internal/build/renderer.go:34-69 | after the packages are added and sorted by name, the error-code file is picked out |
| Rendering.Renderer.ListPackages | internal/build/renderer.go:34-63 | the selected packages are appended and the whole list is sorted by name |
| Rendering.Renderer.PickErrFile | internal/build/renderer.go:65-69 | the loop leaves the last `.ErrCode` file, if any |
| Rendering.PreparedPackages | internal/build/renderer.go:49-63 | starting from a list without `.ErrCode` packages, the result is sorted by name, holds no `.ErrCode` package, and has one entry per earlier or added package |
| Filter.AnchorFilter | internal/build/filter.go:75-77 | the anchor has one character per input character, all from `a-z0-9_-` |
| Filter.AnchorFilterPointwise | internal/build/filter.go:75-77 | `/` becomes `_`, letters are lower-cased, and any other character outside `a-zA-Z0-9_-` becomes `-` |
| Filter.AnchorFilterIdempotent | internal/build/filter.go:75-77 | an anchor is its own anchor |
| Filter.ParaTokensSound | internal/build/filter.go:20 | the split at `(\n\|\r\|\r\n)\s*` loses nothing, every separator is a line break and the whitespace after it, and no part holds a line break |
| Filter.PFilterSingleParagraph | internal/build/filter.go:37-40 | text without line breaks is wrapped in one `<p>` element, and `ParaFilter` does the same with `<para>` (lines 43-46) |
| Filter.PFilterTwoParagraphs | internal/build/filter.go:37-40 | a line break and the whitespace after it separate two `<p>` elements |
| Filter.CollapseSpacesClean | internal/build/filter.go:55 | runs of spaces become one space and no line break is added |
| Filter.ReplaceCRLFNoCR | internal/build/filter.go:50 | text without `\r` is unchanged by the `\r\n` replacement |
| Filter.ReplaceCRLFSinglePass | internal/build/filter.go:50 | the `\r\n` replacement is one pass, so `\r\r\n` becomes `\r\n` |
| Filter.BreaksToSpaces | internal/build/filter.go:53-54 | line breaks become spaces and the length is kept |
| Filter.NoBrParagraphsClean | internal/build/filter.go:49-59 | no paragraph of `NoBrFilter` holds a line break or two spaces in a row |
| Filter.NoBrFilter | internal/build/filter.go:49-59 | the paragraphs between runs of two or more line breaks are cleaned, escaped and joined with `<br/>` |
| Filter.NoBrSingleParagraph | internal/build/filter.go:49-59 | text without a double line break is one paragraph |
| Filter.RawFilter | internal/build/filter.go:27-29 | the content is passed through unchanged |
| Filter.Inc64 | internal/build/filter.go:32-34 | one more than the argument, wrapping from the largest `int64` to the smallest |
| Filter.IncFilterReadsBack | internal/build/filter.go:32-34 | the printed result reads back as the incremented number |

## Left out

- Decoding: `doParseFile` and `Options.UnmarshalJSON` (template.go:183-200, 724-759) read and decode JSON. The model starts from decoded `Fragment` values, and the validator rules (`Rules`, 761-780) are not modelled.
- Paths: `filepath.Dir`/`filepath.Clean` are the function parameter `dirOf`.
- Printing: `Message.JSONString` (template.go:491-496) and the `log.Printf` of failed shapes print JSON text, and JSON serialisation is not modelled. The model stops at the truncated JSON value (`Shapes.Truncated`), and a failed shape leaves the message unchanged, as the code does.
- Rendering: `renderTOC`, `renderService`, `createFile` and the rest of `Render` (renderer.go:70-153) drive `text/template` and the file system. `Render`'s returned error comes from those and is not modelled.
- Escaping: `template.HTMLEscapeString` is the parameter `escape` of `Filter.NoBrFilter`. The `html/template` types `template.HTML` are plain strings.
- Regular expressions: the four fixed patterns are modelled by hand-written scanners, not by a regular-expression engine.
- Pointers: pointer identity and aliasing are not modelled. A back-pointer from a message or enum to its file is the file's directory, and one from a method to its service is the service's full name. `finishParse` sets such pointers element by element, and the model updates one file at a time (`Classify.LinkAt`).
- Command line: `command.go` and `cmd/proto-gen-doc/main.go` are not part of this model.
- Templates.Template.ParseFiles: requires `Templates.Parseable` of the merged result. Every map field's entry message must exist, and whichever order the sort pass gives to ties, some rank must order the registered messages (`Shapes.Ranked`). The code panics on a missing entry, which the model does not describe. `Shapes.Ranked` excludes every cycle among registered messages. The code recurses without end only on a cycle it actually follows. A cycle reached only behind a field that fails first (for example `message T { google.protobuf.Any p = 1; repeated T kids = 2; }`, where the unregistered `Any` stops `fromMessage`) ends normally in the code, with T logged and left without a shape, but lies outside the model.
- Templates.Template.BuildMessagesJsonString: requires the same ranking as `ParseFiles`, so it too leaves out the cyclic inputs that the code handles because a field fails before the cycle.
- Templates.Template.HandleMapField: requires that the entry message of every pending repeated field exists (`Classify.EntriesAvailable`). The code dereferences a missing entry and panics, and the model does not describe that panic.
- Templates.Template.FinishParse: requires `Classify.EntriesAvailable`, as `HandleMapField` does.
- Unknown object kinds: the "unknown error" branch of `fromObjectName` (template.go:178-180) cannot be taken, because every registered object is a well-known type, enum, message or scalar.
- Shapes.FromScalarValue: the whitelist follows the code, which lists thirteen kinds and leaves out `fixed32` and `fixed64`. A field of those types fails to resolve (`Shapes.FixedKindsRejected`).
- SortPass.SortPassOrdered: `sort.Slice` is not stable, so the order of equal names is left open. The sort pass is specified as "sorted and a permutation", and a tie may land either way.
- Rendering.Renderer.Prepare: Go's map iteration order is random. The order in which packages are added is modelled by a choice and constrained only through the final sort.
- Filter.NoBrFilter: `html/template` escaping is a parameter, so nothing is proved about the escaped text itself.
