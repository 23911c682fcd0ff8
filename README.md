# Ruboto build: a Dafny model of the class generator

Ruboto generates the Java base classes of an Android application from the
platform's API description. `lib/ruboto/util/build.rb` does the generating:

- `check_methods` filters the methods a class or interface inherits against the
  project's minimum and target SDK versions. Its first pass drops the methods
  that lie outside that range without a word; the second and third passes print
  one line per method they drop, and the call aborts when the third pass (skipped
  under force) drops a method that is usable only somewhere inside the range.
- `get_class_or_interface` looks the class or interface up and aborts when it
  is missing or removed at the target and, unless forced, when it is not yet
  available at the minimum or deprecated at the target.
- `generate_subclass_or_interface` merges the caller's params over the defaults,
  selects the methods, builds the substitution map (package, extends/implements,
  inheritance target, class name, constants, constructors, methods) and calls
  `build_file`, which rewrites the template with each substitution in turn and
  writes `dest/src/<package path>/<name>.java`.
- `generate_core_classes` runs that for the fixed catalogue of framework classes:
  two listener interfaces, four lifecycle classes and two activities that are
  made only when named.

The model is split into modules that follow that structure:

- `Wrappers` holds `Option` and `Result`.
- `Sequences` holds Ruby's `select` as `Filter`, `uniq` as `Uniq` and `index` as `IndexOf`.
- `Text` holds literal `gsub` as `ReplaceAll`, `split` with a string separator as
  `RubySplit`, `join` as `Join`, `split(".")[-1]` as `SimpleName` and `to_s` as
  `DecimalString`.
- `Api` holds the records read from the API description and the `Env` of
  collaborators.
- `Compat` holds `check_methods` and `get_class_or_interface`.
- `Render` holds `build_file`.
- `Generate` holds `generate_subclass_or_interface`.
- `Batch` holds `generate_core_classes`.
- `CoreSelection` holds what a `:class` selection makes the batch generate.

`abort` is an `Error` value and ends the operation with it. The lines
`check_methods` prints are a list of `Diagnostic` values. The API lookup, the
method listing, constructor definitions, `Array#indent`, the template assets,
the configured package and the SDK versions are fields of `Env`. They are
parameters of the model, not part of it.

`build_file` and `generate_core_classes` work step by step: a loop over the
substitutions, and loops over the catalogues. They are the methods `BuildFile`
and `GenerateCoreClasses`, proved against the functions `ApplyAll` and `RunAll`.
`generate_subclass_or_interface` is the method `GenerateSubclassOrInterface`,
which calls `BuildFile` and is proved against the function `Generation`. The
other operations only compute a value, so they are functions.

Two consequences of the code are worth stating on their own:

- Pass two (build.rb:61-68) drops every method that survives pass one and is
  removed at or before the target version, with a line for each, so a kept
  method is present at the target and not only after the minimum. A method
  removed at or before the minimum is dropped by pass one (build.rb:58) without
  a line. `Compat.CheckMethodsKeepsExactly` states the rule.
- An abort in `generate_core_classes` leaves the files of the earlier requests
  written. `Batch.RunAllFirstError` states which requests succeeded before the
  one that aborted.

## Model

| member | source | states |
|---|---|---|
| `Compat.CheckMethods` | lib/ruboto/util/build.rb:51-89 | with force it never aborts; every kept method is added by the target, not deprecated by the minimum and not removed by the target; without force every kept method is also added by the minimum and not deprecated by the target |
| `Compat.PassTwoIsOneSelect` | lib/ruboto/util/build.rb:56-68 | the three silent selects and the removed-at-target select together are one select by the conjunction of their conditions |
| `Compat.CheckMethodsReturnsPassTwo` | lib/ruboto/util/build.rb:70-88 | on success the list returned is what the first two passes leave (pass three either drops nothing or aborts), and the printed lines are exactly the removal lines of pass two |
| `Compat.CheckMethodsPreservesOrder` | lib/ruboto/util/build.rb:51-89 | the returned methods are a subsequence of the input, in the input's order |
| `Compat.CheckMethodsKeepsExactly` | lib/ruboto/util/build.rb:56-88 | a method is returned if and only if it is in the input, in scope, present at the target and, without force, stable over the whole min..target range |
| `Compat.CheckMethodsAbortsIff` | lib/ruboto/util/build.rb:71-86 | the call aborts if and only if force is off and some method survives the first two passes but is added after the minimum or deprecated by the target |
| `Compat.PassOne` | lib/ruboto/util/build.rb:55-58 | the three silent selects keep exactly the input's methods that exist somewhere in min..target |
| `Compat.PassTwo` | lib/ruboto/util/build.rb:55-68 | passes one and two keep exactly the input's methods in scope and not removed by the target |
| `Compat.RemovedNotes` | lib/ruboto/util/build.rb:61-68 | every line of pass two is a removal line for a method of its input removed by the target |
| `Compat.ConflictNotes` | lib/ruboto/util/build.rb:73-84 | every line of pass three is an added or deprecated line for a method of its input not stable over min..target |
| `Compat.RemovedNotesName` | lib/ruboto/util/build.rb:55-68 | pass two prints one removal line per in-scope input method removed by the target, in input order, and a removal line names a method if and only if it is such a method |
| `Compat.ConflictNotesName` | lib/ruboto/util/build.rb:71-84 | pass three prints one line per usable but unstable input method, in input order; an added line exactly for those added after the minimum, a deprecated line exactly for the others (deprecated by the target); no removal line |
| `Compat.AbortReportsEachConflict` | lib/ruboto/util/build.rb:60-85 | on abort the lines are the removal lines of pass two followed by the lines of pass three; a removal, added or deprecated line names a method if and only if the input holds it and it was dropped for that reason |
| `Compat.PassesKeepUsable` | lib/ruboto/util/build.rb:55-68 | a list whose methods all pass the first two passes goes through them unchanged and without lines |
| `Compat.CheckMethodsIdempotent` | lib/ruboto/util/build.rb:51-89 | running check_methods again on its result, with the same arguments, returns the same list, prints nothing and does not abort |
| `Compat.GetClassOrInterface` | lib/ruboto/util/build.rb:30-46 | succeeds if and only if the element is found, not removed at the target and, without force, added by the minimum and not deprecated at the target; on success it returns the element; a missing element gives NotFound |
| `Compat.GuardErrorOrder` | lib/ruboto/util/build.rb:33-43 | the not-in-minimum error is reported before the deprecated one, both only without force, and the removal check runs even with force |
| `Compat.GuardForceRelaxes` | lib/ruboto/util/build.rb:35-45 | whatever passes the guard without force passes it with force, with the same element |
| `Render.ApplyAll` | lib/ruboto/util/build.rb:20 | no contract; the in-order gsub of every substitution, described by `Render.ApplyAllAppend`, `Render.ApplyStepExhaustive` and `Render.BuildFile` |
| `Render.FileJoin` | lib/ruboto/util/build.rb:16-22 | the result is the left part without its trailing '/' characters, then only '/' characters, then the right part; when the right part does not start with '/', exactly one '/' is put between parts that carry none at the seam, and a left part already ending in '/' is kept whole with nothing added (for a destination such as "out/"); File.join drops every trailing '/' of the left part when the right part starts with '/' |
| `Render.FileJoinCollapses` | lib/ruboto/util/build.rb:16-22 | a left part ending in any number of '/' joined with a right part starting with '/' keeps only the right part's '/' |
| `Render.PackageDir` | lib/ruboto/util/build.rb:16 | no contract; "src/" and the package with every '.' turned into '/', described by `Render.PackageDirRoundTrip` and `Render.OutputPathShape` |
| `Render.OutputPath` | lib/ruboto/util/build.rb:16-22 | no contract; File.join(File.join(dest, "src/<package path>"), "<name>.java"), described by `Render.OutputPathShape` and `Render.RubotoActivityPath` |
| `Render.BuildFile` | lib/ruboto/util/build.rb:15-23 | the text written is the template with every substitution applied in order, and the path is File.join(File.join(dest, "src/" + package with '.' turned into '/'), name + ".java") |
| `Render.ApplyAllAppend` | lib/ruboto/util/build.rb:20 | applying a list of substitutions is applying a prefix of it, then the rest to that output |
| `Render.ApplyAbsentKey` | lib/ruboto/util/build.rb:20 | a placeholder that does not occur in the current text changes nothing |
| `Render.ApplyStepExhaustive` | lib/ruboto/util/build.rb:20 | each step leaves no occurrence of its placeholder: the text is the placeholder-free pieces joined by the placeholder, and the step joins them by the value instead |
| `Render.PackageDirRoundTrip` | lib/ruboto/util/build.rb:16 | the package directory holds no '.', and turning '/' back into '.' gives the package back when it had no '/' |
| `Render.OutputPathShape` | lib/ruboto/util/build.rb:16-22 | with a destination not ending in '/', a non-empty package holding no '/' and not ending in '.', and a non-empty name not starting with '/', the file is dest/src/<package path>/<name>.java |
| `Render.RubotoActivityPath` | lib/ruboto/util/build.rb:16-22 | the activity base class of package org.ruboto is written to ./src/org/ruboto/RubotoActivity.java |
| `Render.SubstitutionExample` | lib/ruboto/util/build.rb:20 | replacing A-TOKEN by x and then B-TOKEN by y turns "A-TOKEN A-TOKEN B-TOKEN" into "x x y" |
| `Text.ReplaceAll` | lib/ruboto/util/build.rb:16-20 | no contract; gsub with a literal pattern, described by `Text.ReplaceAllExhaustive` and `Render.PackageDirRoundTrip` |
| `Text.RubySplit` | lib/ruboto/util/build.rb:113 | String#split with a separator: the result is empty or ends in a non-empty field (trailing empty fields are dropped) |
| `Text.SimpleName` | lib/ruboto/util/build.rb:129 | no contract; split(".")[-1], described by `Text.SimpleNameIsLastPiece` and `Text.SimpleNameOfJoin` |
| `Text.DecimalString` | lib/ruboto/util/build.rb:116 | Integer#to_s: a non-empty string of digits with no leading zero unless the number is 0 |
| `Text.Join` | lib/ruboto/util/build.rb:113-137 | no contract; Array#join, described by `Text.RubySplitJoin`, `Text.JoinSplitOn` and `Text.ReplaceAllExhaustive` |
| `Text.JoinSplitOn` | lib/ruboto/util/build.rb:20 | joining the pieces of a split with the separator gives the text back |
| `Text.ReplaceAllExhaustive` | lib/ruboto/util/build.rb:20 | gsub with a literal pattern splits the text at every occurrence, leaves no occurrence in any piece, and joins the pieces with the replacement |
| `Text.RubySplitJoin` | lib/ruboto/util/build.rb:113 | splitting at a character undoes joining with it when no field holds that character and the last field is not empty |
| `Text.SimpleNameIsLastPiece` | lib/ruboto/util/build.rb:129 | the simple name is the last element of split("."), and nil when the split is empty |
| `Text.SimpleNameOfJoin` | lib/ruboto/util/build.rb:140 | the simple name of a dotted name made of dot-free parts whose last part is not empty is that last part |
| `Text.DecimalRoundTrip` | lib/ruboto/util/build.rb:116 | the decimal text of a count reads back as that count |
| `Generate.WithDefaults` | lib/ruboto/util/build.rb:95-97 | no contract; defaults.merge(params) and the configured package, described by `Generate.CallerValuesWin` and `Generate.DefaultsFillGaps` |
| `Generate.Constants` | lib/ruboto/util/build.rb:107 | no contract; methods.map(&:constant_string).uniq, described by `Generate.ConstantsDeclaredByPosition` and `Generate.ConstantsInFirstUseOrder` |
| `Generate.ConstantDeclarations` | lib/ruboto/util/build.rb:115 | no contract; one declaration per constant with its index, described by `Generate.ConstantsDeclaredByPosition` |
| `Generate.SubstitutionMap` | lib/ruboto/util/build.rb:109-120 | no contract; the eight substitutions, described by `Generate.SubstitutionMapEntries` and `Generate.ActivityHeader` |
| `Generate.Generation` | lib/ruboto/util/build.rb:94-121 | no contract; generate_subclass_or_interface as a function, described by `Generate.GenerationOutcome`, `Generate.GeneratedText` and `Generate.GenerateSubclassOrInterface` |
| `Generate.GeneratedText` | lib/ruboto/util/build.rb:109-120 | the text generated is the template rewritten by the substitution map of the element found, the merged settings and the generated methods, which `Generate.GenerationOutcome` shows are the methods check_methods kept |
| `Generate.ActivityHeader` | lib/ruboto/util/build.rb:110-114 | for RubotoActivity, a subclass of android.app.Activity in org.ruboto implementing nothing, the first four substitutions are THE_PACKAGE to org.ruboto, THE_ACTION to extends, THE_ANDROID_CLASS to android.app.Activity and THE_RUBOTO_CLASS to RubotoActivity |
| `Generate.CallerValuesWin` | lib/ruboto/util/build.rb:95-97 | a request that gives every key is used as given, whatever the configured package |
| `Generate.DefaultsFillGaps` | lib/ruboto/util/build.rb:95-97 | left-out keys take InheritingClass, all, empty include/exclude/implements, no force and the configured package |
| `Generate.ConstantsDeclaredByPosition` | lib/ruboto/util/build.rb:106-115 | the constants are the kept methods' constant names, each once, and the k-th is declared with value k |
| `Generate.ConstantsInFirstUseOrder` | lib/ruboto/util/build.rb:107 | the constants are declared in the order the methods first use them |
| `Generate.AndroidClass` | lib/ruboto/util/build.rb:112-113 | the inheritance target starts with the class or interface name and is exactly that name if and only if implements is empty |
| `Generate.AndroidClassLists` | lib/ruboto/util/build.rb:112-113 | a comma-separated implements list comes out as " implements " and the names joined with ", " |
| `Generate.SubstitutionMapEntries` | lib/ruboto/util/build.rb:109-120 | the eight placeholders in order; "extends" exactly for a class and "implements" exactly for an interface; no constructors for an interface; the count reads back as the number of kept methods |
| `Generate.GenerationOutcome` | lib/ruboto/util/build.rb:94-121 | a guard error is the result; after the guard, a check_methods abort is the result; generation succeeds if and only if the guard and check_methods both pass, and then the generated methods and the printed lines are check_methods' kept list and lines; the file goes to ./src/<package path>/<name>.java; every generated method is usable at the target and, without force, over the whole range |
| `Generate.GenerationWithoutTarget` | lib/ruboto/util/build.rb:99 | with neither a class nor an interface there is nothing to look up, and generation aborts with NotFound |
| `Generate.ActivityExample` | lib/ruboto/util/build.rb:94-121 | generating RubotoActivity in org.ruboto for SDK 10..19 writes ./src/org/ruboto/RubotoActivity.java and, without force, no method added after version 10 |
| `Generate.ActivityExampleText` | lib/ruboto/util/build.rb:109-120 | when android.app.Activity is a class and nothing is implemented, the text of that generation is the template with org.ruboto, extends, android.app.Activity and RubotoActivity put for the package, action, class and name placeholders, followed by the constants, count, constructors and methods |
| `Generate.GenerateSubclassOrInterface` | lib/ruboto/util/build.rb:94-121 | the method, which calls build_file, returns what the Generation function defines |
| `Batch.Selected` | lib/ruboto/util/build.rb:130 | no contract; an entry is chosen when `:class` is its simple name or, outside the direct-only activities, "all"; described by `CoreSelection.AllSelection` and `CoreSelection.NamedSelection` |
| `Batch.LifecycleExclude` | lib/ruboto/util/build.rb:137 | no contract; described by `Batch.LifecycleExcludesHooks` |
| `Batch.Picked` | lib/ruboto/util/build.rb:139-145 | no contract; the requests of the selected entries of one catalogue, in order, described by `CoreSelection.PickedEvery` and `CoreSelection.NamedSelection` |
| `Batch.CoreRequests` | lib/ruboto/util/build.rb:127-154 | no contract; the listener, lifecycle and direct-only requests in that order, described by `CoreSelection.AllSelection` and `CoreSelection.NamedSelection` |
| `Batch.RunAll` | lib/ruboto/util/build.rb:127-154 | no contract; the requests run in order up to the first abort, described by `Batch.RunAllFirstError` and `Batch.RunAllAbortsPrefix` |
| `Batch.RubotoName` | lib/ruboto/util/build.rb:131-151 | no contract; "Ruboto" and the simple name, described by `Batch.Request` and `CoreSelection.RequestShape` |
| `Batch.SharedRequest` | lib/ruboto/util/build.rb:135-137 | no contract; the hash shared by the lifecycle and direct-only requests, described by `CoreSelection.RequestShape` and `CoreSelection.AllRequestFields` |
| `Batch.Request` | lib/ruboto/util/build.rb:128-152 | each request looks up the entry's qualified name as a class and names the generated class Ruboto + its simple name |
| `Batch.RunAllAbortsPrefix` | lib/ruboto/util/build.rb:127-154 | once a prefix of the batch aborts, nothing after it runs and the batch ends with that error |
| `Batch.RunAllFirstError` | lib/ruboto/util/build.rb:127-154 | the batch succeeds if and only if every request does, and then returns their outputs in order; otherwise it reports the error of the first request that aborts, all requests before it having succeeded |
| `Batch.RunCatalogue` | lib/ruboto/util/build.rb:139-145 | one catalogue loop generates the selected entries in order, continuing the batch so far, and stops at the first abort |
| `Batch.GenerateCoreClasses` | lib/ruboto/util/build.rb:127-154 | the listeners, then the lifecycle classes, then the direct-only activities are generated in order, each if selected, and the first abort ends the batch |
| `Batch.LifecycleExcludesHooks` | lib/ruboto/util/build.rb:137 | the lifecycle exclusion list is the caller's names followed by onCreate and onReceive |
| `CoreSelection.MemberSimpleNames` | lib/ruboto/util/build.rb:128-149 | split(".")[-1] of each catalogue entry is its simple name |
| `CoreSelection.PickedEvery` | lib/ruboto/util/build.rb:128-145 | under "all" a listener or lifecycle catalogue yields one request per entry, in order |
| `CoreSelection.AllSelection` | lib/ruboto/util/build.rb:128-145 | with "all" the batch makes six requests: the two listeners, then the four lifecycle classes, in catalogue order |
| `CoreSelection.AllNeverDirectOnly` | lib/ruboto/util/build.rb:147-153 | with "all" no request is for PreferenceActivity or TabActivity |
| `CoreSelection.RequestShape` | lib/ruboto/util/build.rb:131-151 | listeners go to org.ruboto.callbacks with template, method base, include, exclude, implements and force all left to the defaults; the others go to org.ruboto with the caller's method base, include, implements and force and the extended exclusion list; View takes InheritingClass, the other lifecycle classes their own Ruboto template, the direct-only activities RubotoActivity |
| `CoreSelection.AllRequestFields` | lib/ruboto/util/build.rb:128-145 | the six requests under "all", field by field: class, name, package and template of each; every option left out for the two listeners; the caller's method base, include, implements and force and the extended exclusion list for the four lifecycle classes |
| `CoreSelection.NamedSelection` | lib/ruboto/util/build.rb:127-154 | with a catalogue entry's simple name the batch makes exactly that entry's request |
| `CoreSelection.PreferenceActivityRequest` | lib/ruboto/util/build.rb:148-152 | "PreferenceActivity" makes only RubotoPreferenceActivity in org.ruboto from the RubotoActivity template |
| `Sequences.Filter` | lib/ruboto/util/build.rb:56-83 | Array#select: an order-preserving subsequence of the input holding exactly the input's elements the block accepts, each accepted element as many times as in the input and each rejected one not at all |
| `Sequences.IndexOf` | lib/ruboto/util/build.rb:115 | Array#index: a position of the element, with no earlier occurrence of it |
| `Sequences.Uniq` | lib/ruboto/util/build.rb:107 | Array#uniq: the same elements, each once, no longer than the input |
| `Sequences.UniqFirstOccurrenceOrder` | lib/ruboto/util/build.rb:107 | uniq keeps the elements in the order of their first occurrence |

## Left out

- Files and directories are not modelled. The template text comes from
  `Env.template`. Creating the directory (build.rb:17) and writing the file are
  left out; `BuildFile` returns the path and the text instead.
- `generate_inheriting_file` (build.rb:162-180) is not part of this model. It
  is a separate file writer that `generate_core_classes` does not call.
- The texts of the printed lines and of the abort messages are not modelled,
  nor are the "Generating methods" and "Done" lines. The model keeps which
  method or class each line is about and why.
- `find_class_or_interface`, `all_methods`, `constructor_definition`,
  `Array#indent`, `verify_package` and the SDK versions come from code that is
  not part of this model. They are the fields of `Env`, and the model says
  nothing about what they return.
- Version attributes are integers. `String#to_i` of a text that is not a number
  is not modelled.
- Generate.GenerationWithoutTarget: with neither `:class` nor `:interface` the
  source passes nil to the lookup, which is not part of this model; the model
  does not consult `Env.find` and takes it that a lookup of nil finds nothing,
  aborting with NotFound("").
- Generate.Params: `name` is a required string. A request without `:name`
  reaches `gsub!` with nil at build.rb:20 and raises a TypeError after the
  directory was made at build.rb:17; that failure is not modelled.
- Values of `nil` in the params of `generate_core_classes` are not modelled.
  `BatchParams` holds strings and a boolean.
- Batch.RunAllFirstError: an aborted batch returns only its error. The files
  written before the abort are the outputs of the requests before the failing
  one, but the error result does not list them.
- `RubySplit` models `String#split` with a separator other than a single space.
  The whitespace mode of `split(" ")` and the limit argument are not modelled.
- `ReplaceAll` models `gsub` with a literal string pattern. Regular expressions
  and back-references in the replacement are not modelled; build.rb passes only
  literal placeholders.
