# baker and the canvas program, modelled in Dafny

The repository holds two programs, and this project models the core of each.

**baker** is a small build driver for C++20 modules, written in Python. The model covers four parts of it:

- Loading the `bakerfile`. The user's JSON options are merged over the defaults section by section and subkey by subkey. A subkey whose value has the wrong type fails. User keys that are not sections are copied after the sections.
- Classifying a source file (`classify`). The file's preamble is read statement by statement. The result records the file's module role, the module it declares, the header units it imports, and the modules and partitions it depends on.
- Building a node from a classification (`Node`). The node checks that it has its three required keys with their exact types, and that every child is a string or a node.
- Indexing the sources of every target (`gen_classes`, `make_targets`). Plain sources are collected in a list. Module interfaces, partitions and implementation units are each kept in a map by name. Header units are collected in a set. The first source of a target must be a plain `.cpp` file, and it becomes the root.

**The canvas program** (`src/main/main.cpp`) keeps an RGB image as a flat buffer of bytes, three per pixel, row after row. The model covers three parts of it:

- The four pixel accessors: `setabs` and `getabs` take absolute coordinates, and `seti` and `geti` take coordinates centred on the middle of the image with `y` pointing up.
- The 4×4 block average that the program runs over the image.
- The disabled loop that copies every pixel onto itself.

Module by module:

- `Wrappers`, `Text`, `Utility` and `JsonValues` define the values the programs work on:
  - `Option` and `Result`;
  - Python's `str.strip`, `str.split` and `str.endswith`;
  - the `Type` enumeration;
  - JSON values with Python's `in`, `[]` and `type()`.
- `Patterns` gives the regular expressions of `classify.py` the meaning that `re.search` gives them. This includes `$` matching before a final newline and `\s+` giving characters back to `(.+)`.
- `Classifier` and `ClassifyProperties` model `classify` and its properties.
- `Nodes` models `Node`.
- `Bakerfile` and `BakerfileProperties` model `load_bakerfile`.
- `Baker` and `BakerProperties` model `gen_classes` and `make_targets`.
- `Pixels` models the buffer and its accessors.
- `BoxFilter` models the block average.

### Behaviour worth knowing

The model follows the code on each of these points, including where the code evidently does less than it sets out to.

- **Bare `module`, preprocessor lines and comments stop the scan.** `re_okay` (`classify.py:11`) lists exactly these forms, evidently so that the scan would go on past them. But the `continue` at `classify.py:67-68` only continues the inner loop over `re_okay`. So `done = True` (`classify.py:69`) is reached for every statement that no pattern recognised. `ClassifyProperties.InertFormsStop` states this.
- **`import :P` is not expanded.** Only `export import :P` is expanded to `<module>:P`; a plain `import :P` records `:P` as written (`ClassifyProperties.ImportKeepsColon`).
- **`export import` never records a header unit.** Only `import` recognises a quoted header. `export import <h>` records `<h>` as a dependency.
- **A later source overwrites an earlier one of the same name.** A module, partition or implementation unit is stored as `self.classes[type][module] = node` (`baker.py:91-92`). When two sources of one kind declare the same name, the later node replaces the earlier one without any error (`BakerProperties.AssembleKindMap`).
- **The root carries over between targets.** `self.root_node` is never reset. A target without sources leaves the previous target's root in place (`BakerProperties.RootAfterTargets`).

## Model

| member | source | states |
|---|---|---|
| Text.TrimStart | classify.py:19-20 | `strip` from the left: the result is a suffix, everything dropped is whitespace, and the result does not start with whitespace |
| Text.TrimEnd | classify.py:19-20 | `strip` from the right: the result is a prefix, everything dropped is whitespace, and the result does not end with whitespace |
| Text.Trim | classify.py:19-20 | `strip()`: the result is a slice of the input, all whitespace lies outside it, and it neither starts nor ends with whitespace |
| Text.TrimUnique | classify.py:19-20 | stripping a word padded with whitespace gives exactly the word back |
| Text.StripCharsUnique | classify.py:58 | `strip('<>"')` removes exactly the quote characters around a name, and nothing else |
| Text.Split | classify.py:19 | `split(';')` yields at least one piece, no piece holds a `;`, and joining the pieces with `;` gives the line back |
| Text.SplitJoin | classify.py:19 | splitting pieces that were joined with `;` gives back the same pieces |
| Patterns.DotsToEnd | classify.py:4 | `(.+)$` captures the non-empty rest of a statement without a newline; a single trailing newline is left outside the group |
| Patterns.LeadingSpaces | classify.py:4 | the longest run of whitespace at the start of a string |
| Patterns.SpacesThenGroup | classify.py:4 | `\s+(.+)$` captures a non-empty, newline-free text after at least one whitespace character |
| Patterns.KeywordGroup | classify.py:4-8 | `^kw\s+(.+)$` matches only statements starting with the keyword, and the captured name is non-empty and has no newline |
| Patterns.KeywordsGroup | classify.py:5-7 | the same for two keywords separated by whitespace (`export module`, `export import`) |
| Patterns.KeywordGroupHolds | classify.py:4-8 | a character that is neither whitespace nor part of the keyword occurs in the statement exactly when it occurs in the captured name |
| Patterns.KeywordsGroupHolds | classify.py:36-38 | for `export module`, a `:` occurs in the statement exactly when it occurs in the captured name, so `':' in stat` decides the partition by the name |
| Patterns.Backtrack | classify.py:4-8 | the greedy `\s+` gives back one character at a time: a capture is non-empty, has no newline, and is everything after one of the first `j` characters, up to a final newline |
| Patterns.KeywordGroupSpelled | classify.py:4-8 | a capture of `^kw\s+(.+)$` spells out the statement: the keyword, a run of whitespace, the captured name and at most a final newline |
| Patterns.KeywordsGroupSpelled | classify.py:5-7 | the same for two keywords: the first keyword, whitespace, the second keyword, whitespace, the name and at most a final newline |
| Patterns.MatchImpl | classify.py:4 | `re_impl` captures a non-empty name on one line, and the statement is `module`, whitespace and that name |
| Patterns.MatchExport | classify.py:5 | `re_export` captures a non-empty name on one line, and the statement is `export`, whitespace, `module`, whitespace and that name |
| Patterns.MatchExportImport | classify.py:7 | `re_export_import` captures a non-empty name on one line, and the statement is `export`, whitespace, `import`, whitespace and that name |
| Patterns.MatchImport | classify.py:8 | `re_import` captures a non-empty name on one line, and the statement is `import`, whitespace and that name |
| Patterns.MatchHeaderUnit | classify.py:9 | `re_import_header_unit` matches exactly an opening `<` or `"`, a non-empty line and a closing `>` or `"`, with at most a final newline |
| Patterns.SpacesThenName | classify.py:4 | whitespace followed by a clean name captures exactly that name |
| Patterns.KeywordCaptures | classify.py:4-8 | `kw` plus whitespace plus a clean name is matched, and the group is exactly the name |
| Patterns.KeywordsCapture | classify.py:5-7 | the same for the two-keyword patterns |
| Classifier.Parse | classify.py:24-63 | each statement form holds exactly when every earlier pattern failed and its own matched, in the order `classify` tries them; a declaration is a partition exactly when its name holds a `:` |
| Classifier.Step | classify.py:21-70 | one statement: an unrecognised non-empty statement stops the scan; the assertion failures are exactly a repeated declaration and `export import :P` before a module name; otherwise the dictionary only grows at the end, at most one list gains at most one entry, and the dictionary stays well formed |
| Classifier.ScanStatements | classify.py:19-70 | scanning statements only extends the dictionary and keeps it well formed |
| Classifier.Statements | classify.py:19-20 | a line yields at least one statement; no statement holds a `;`, and none starts or ends with whitespace |
| ClassifyProperties.StatementsOfJoin | classify.py:19-20 | statements with no `;` and no whitespace at either end, joined with `;`, are read back as exactly those statements |
| Classifier.ScanLines | classify.py:18-73 | scanning lines only extends the dictionary and keeps it well formed |
| Classifier.Classify | classify.py:13-75 | a result keeps the file name, has a module name exactly when its role is not plain, and has `pre == [name]` exactly for implementation units |
| ClassifyProperties.ParseRender | classify.py:24-63 | reading back a written `module`, `export module`, `export import` or `import` statement gives the same statement |
| ClassifyProperties.ParseImpl | classify.py:24-30 | `module X`, with any run of whitespace after the keyword, reads as an implementation-unit declaration of `X` |
| ClassifyProperties.ParseInterface | classify.py:33-39 | `export module X`, with any runs of whitespace between the words, reads as a declaration of `X`, a partition exactly when `X` holds a `:` |
| ClassifyProperties.ParseExportImport | classify.py:42-49 | `export import V`, with any runs of whitespace between the words, reads as a re-export of `V` and not as a declaration |
| ClassifyProperties.ParseImport | classify.py:52-63 | `import W`, with any run of whitespace after the keyword, reads as an import of `W` and is taken for no other form |
| ClassifyProperties.ModuleDeclaration | classify.py:24-30 | `module X`, with any run of whitespace after the keyword, sets the role to implementation unit, the name to `X` and appends `X` to `pre`; a second declaration fails |
| ClassifyProperties.ExportModuleDeclaration | classify.py:33-39 | `export module X`, with any runs of whitespace between the words, sets the role to partition or interface and the name to `X`; a second declaration fails |
| ClassifyProperties.ExportImportStatement | classify.py:42-49 | `export import :P` appends `<module>:P` and fails before any declaration; `export import V` appends `V` as written; any runs of whitespace may separate the words |
| ClassifyProperties.ImportStatement | classify.py:52-63 | `import W`, with any run of whitespace after the keyword, adds a header unit when `W` is quoted and a dependency on `W` otherwise |
| ClassifyProperties.HeaderUnitImport | classify.py:56-59 | `import <h>` and `import "h"`, with any run of whitespace after the keyword, record `h` without its quotes as a header unit, and nothing else changes |
| ClassifyProperties.ImportKeepsColon | classify.py:52-61 | `import :P`, with any run of whitespace after the keyword, records `:P` unexpanded |
| ClassifyProperties.InertFormsStop | classify.py:65-70 | a bare `module`, a `#` line and a `//` comment stop the scan like any other unrecognised statement |
| ClassifyProperties.ScanAppend | classify.py:18-20 | scanning two runs of statements is scanning the second from where the first left off, unless the first stopped or failed |
| ClassifyProperties.ScanStopsAtOrdinary | classify.py:65-73 | nothing after the first unrecognised statement is inspected, whatever it holds |
| ClassifyProperties.ScanLinesFlat | classify.py:17-19 | where the line breaks fall makes no difference: scanning lines is scanning all their statements in order |
| ClassifyProperties.ClassifyIgnoresLaterLines | classify.py:69-73 | once the scan has stopped, appending lines to the file does not change the result |
| ClassifyProperties.NothingRecognised | classify.py:21-70 | statements that are empty or unrecognised leave the dictionary as it was |
| ClassifyProperties.ClassifyNothingRecognised | classify.py:14-21 | a file without any recognised statement classifies as plain, with no name, dependencies or header units |
| ClassifyProperties.NoStopWithoutOrdinary | classify.py:65-70 | a scan that meets no unrecognised statement does not stop early |
| ClassifyProperties.DeclarationSticks | classify.py:26-38 | after a declaration the role is no longer plain |
| ClassifyProperties.SecondDeclarationFails | classify.py:26-35 | two declarations before the scan stops make the scan fail |
| ClassifyProperties.DeclarationAfterDeclaration | classify.py:26-35 | a declaration met once a role is declared fails with that statement |
| ClassifyProperties.TwoDeclarationsFail | classify.py:26-35 | a file with two declarations before its first unrecognised statement fails to classify |
| Nodes.CheckKeys | node.py:11-15 | the key check passes exactly when every required key is present with its exact type; a failure is `KeyError` or `TypeError` for the first key, in order, that breaks the rule |
| Nodes.Check | node.py:10-19 | `check` passes exactly when the keys are right and every child is a string or a node; a bad child is reported only when the keys are right |
| Nodes.NewNode | node.py:4-8 | a node is built exactly when no keyword argument is named `self`, `parent` or `children` and `check` passes, and then it holds the given parent, children and data; such a keyword raises `TypeError` before `check` runs, and otherwise a failure is `check`'s error |
| Nodes.ClashingKeyRaises | node.py:4 | adding a keyword named `self`, `parent` or `children` makes the call raise `TypeError`, whatever the other arguments |
| Nodes.MissingKeyRaises | node.py:11-13 | when no keyword clashes with a parameter, the first required key that is missing raises `KeyError` for that key |
| Nodes.WrongTypeRaises | node.py:14-15 | when no keyword clashes with a parameter, the first required key whose value has the wrong type raises `TypeError` for that key |
| Nodes.ExtraKeysAccepted | node.py:10-19 | keys other than the three required ones and the parameters' names never change whether a node can be built |
| JsonValues.Lookup | baker.py:118-119 | a lookup finds a value exactly when the key is present, and the value is the one stored under the key's first occurrence |
| JsonValues.LookupDistinct | baker.py:118-119 | with distinct keys, looking up an entry's key gives that entry's value |
| JsonValues.Contains | baker.py:111 | Python's `in`: a key of a dict, an element of a list, a substring of a string, and a `TypeError` for anything else |
| JsonValues.Index | baker.py:119 | subscripting by a string succeeds exactly on a dict, with the value stored under the key |
| Bakerfile.MergeSubkeys | baker.py:117-125 | a merged section has the default subkeys in order, each a user value of the default's type where the user gave one and the default otherwise; it fails exactly when a user value has the wrong type |
| Bakerfile.MergeSection | baker.py:115-127 | a merged section conforms to its defaults, and a failure is a type error in that section or an unsupported container |
| Bakerfile.MergeSections | baker.py:114-127 | the three sections merge exactly when each merges on its own, and the result lists them in default order |
| Bakerfile.Extras | baker.py:129-131 | the copied keys come from the document, are not already in the options, are distinct, and together with the options cover every document key |
| Bakerfile.ExtrasAfter | baker.py:129-131 | appending the copied keys keeps all keys distinct and loses none of the document's keys |
| Bakerfile.KeyError | baker.py:129-131 | one element of a list document passes exactly when it is a section name or an int or bool that indexes the list (negative from the end); any other int or bool raises `IndexError`, and every other element raises `TypeError` |
| Bakerfile.ListKeysError | baker.py:129-131 | over a list document, no element raises exactly when every element passes, and otherwise the error is that of the first element that raises |
| Bakerfile.TargetsRaises | baker.py:129-131 | a list that holds `"targets"` always raises in the copy loop, because a string other than a section name cannot index a list |
| Bakerfile.LoadBakerfile | baker.py:103-131 | the merged options come from an object that has `targets`; they start with the three sections, each conforming to its defaults, have distinct keys and keep `targets` |
| BakerfileProperties.NoTargetsFails | baker.py:111-112 | a document without `targets` is refused with `ValueError` |
| BakerfileProperties.NonObjectFails | baker.py:111-131 | a document that is not an object is always refused; `MissingTargets` exactly when a list or string does not contain `"targets"`; otherwise `TypeError`, or for a list possibly `IndexError` |
| BakerfileProperties.ListDocumentFails | baker.py:111-131 | a list document that holds `"targets"` and passes the section merge is refused with the error of its first element that raises: `IndexError` for an integer past the end, `TypeError` otherwise |
| BakerfileProperties.IndexPastEnd | baker.py:129-131 | `[5, "targets"]` is refused with `IndexError` |
| BakerfileProperties.MergeSubkeysAcceptable | baker.py:117-125 | a section merges exactly when every default subkey it holds is found in a dict, with a value of the default's type |
| BakerfileProperties.LoadSucceeds | baker.py:103-131 | loading succeeds exactly for an object with `targets` whose `dirs` and `flags` sections are acceptable |
| BakerfileProperties.SectionMerges | baker.py:115-127 | one section of an object merges exactly when it is absent, has no default subkeys, or is acceptable |
| BakerfileProperties.AbsentSectionIsDefault | baker.py:126-127 | a section the document lacks is the whole default section |
| BakerfileProperties.PresentSectionMerged | baker.py:115-125 | a section given as a dict keeps, for each default subkey, the user's value or else the default, and nothing more |
| BakerfileProperties.MismatchFails | baker.py:121-122 | a user subkey whose type differs from the default's makes loading fail |
| BakerfileProperties.OptionsLayout | baker.py:114-131 | the options are the three merged sections followed by the copied keys |
| BakerfileProperties.ExtrasLookup | baker.py:129-131 | every copied key keeps the document's value |
| BakerfileProperties.ExtrasCopied | baker.py:129-131 | an option key is a section or a document key, and every other key has the document's value |
| BakerfileProperties.MergeConforming | baker.py:117-125 | merging a section that already conforms to its defaults gives it back unchanged |
| BakerfileProperties.DefaultsDistinct | baker.py:26-39 | the default sections have distinct subkeys |
| BakerfileProperties.SectionStable | baker.py:114-127 | on merged options, each section merges to itself |
| BakerfileProperties.SectionsStable | baker.py:114-127 | on merged options, the three sections merge to themselves |
| BakerfileProperties.LoadIdempotent | baker.py:103-131 | loading the merged options as a bakerfile gives the same options back |
| Baker.NodeBuilds | baker.py:80-86 | the node built from a classification always passes `Node.check`, so `gen_classes` never raises there |
| Baker.Add | baker.py:79-94 | the header units grow by the source's; a plain source is appended to the plain list; a module, partition or implementation unit replaces its name in its own map; the other maps stay unchanged |
| Baker.ClassifySource | baker.py:74-77 | a classified source is a string with a `.cpp` or `.cppm` extension, and its classification is well formed and carries its name; a string with another extension fails with `ValueError` |
| Baker.Admit | baker.py:86-99 | a source is admitted into the index; the first source fails exactly when it is not a plain `.cpp` file and otherwise becomes the root |
| Baker.GenPrefix | baker.py:73-99 | a loop over at least one source that succeeds has classified the first source as a plain `.cpp` file, and that source's node is the root |
| Baker.GenClasses | baker.py:62-101 | no sources leave an empty index and the old root |
| Baker.GenPrefixRootFree | baker.py:96-99 | once a source has been admitted, the root held before the run no longer matters |
| Baker.GenClassesRootFree | baker.py:96-99 | success and the index do not depend on the previous root, and with sources nothing does |
| Baker.TargetsFrom | baker.py:51-57 | a successful run has every target's sources in a list, and every list assembles on its own |
| Baker.MakeTargets | baker.py:46-57 | targets that are not a dict fail with `ValueError`; success means every target is a list |
| BakerProperties.GenPrefixMatches | baker.py:73-99 | over classified sources, the loop succeeds exactly when the first is a plain `.cpp` file, and then yields the assembled index and the first node as root |
| BakerProperties.GenPrefixClassified | baker.py:73-77 | a successful loop has classified every source |
| BakerProperties.GenPrefixReaches | baker.py:73-99 | a loop whose sources all classify, with a proper first source, succeeds |
| BakerProperties.FailureSticks | baker.py:73-77 | a failure ends the loop: later sources do not change the error |
| BakerProperties.GenClassesSucceeds | baker.py:62-101 | `gen_classes` succeeds exactly when every source classifies and the first is a plain `.cpp` file |
| BakerProperties.GenClassesResult | baker.py:62-101 | on success the index is the classifications assembled in order, and the root is the first source's node |
| BakerProperties.FirstFailureDecides | baker.py:73-77 | the first source that fails to classify decides the error |
| BakerProperties.BadExtensionFirst | baker.py:74-75 | a source with a wrong extension fails with `ValueError` before its file is read |
| BakerProperties.RootMustBePlain | baker.py:96-98 | a first source that is not a plain `.cpp` file fails with `ValueError` naming it |
| BakerProperties.AssembleHeaderUnits | baker.py:71-79 | the header units are exactly those of all the sources |
| BakerProperties.AssemblePlain | baker.py:89-90 | the plain list has one node per plain source, and a node is in it exactly when a plain source builds it |
| BakerProperties.AssembleKindMap | baker.py:91-92 | a name is in a kind's map exactly when a source of that kind declares it, and it maps to the last such source's node |
| BakerProperties.RootAmongPlain | baker.py:89-99 | after a successful run with sources there is a root, and it is among the plain nodes |
| BakerProperties.TargetsSucceed | baker.py:51-57 | the targets succeed exactly when each is a list whose sources assemble |
| BakerProperties.MakeTargetsSucceeds | baker.py:46-57 | `make_targets` succeeds exactly for a dict whose targets are all lists that assemble |
| BakerProperties.LastTargetIndex | baker.py:51-71 | only the last target's index is left behind, because each run starts from an empty index |
| BakerProperties.RootAfterTargets | baker.py:96-99 | the root left behind is the first source of the last target that has sources, or the earlier root when no target has any |
| Pixels.Loc | src/main/main.cpp:46 | a pixel's first byte is a multiple of three, and all three of its bytes lie inside the buffer |
| Pixels.LocApart | src/main/main.cpp:46-51 | two different pixels never share a byte |
| Pixels.SetAbs | src/main/main.cpp:43-56 | `setabs` writes exactly when the point is inside the image; the pixel's three bytes receive the colour's low, middle and high byte in that order, the image keeps its size, and every byte outside the pixel is unchanged |
| Pixels.GetAbs | src/main/main.cpp:65-79 | `getabs` returns a 24-bit value, and 0 outside the image; inside, the value's low, middle and high byte are the pixel's three stored bytes in that order |
| Pixels.LowBytes | src/main/main.cpp:49-51 | the three bytes stored are the colour's low 24 bits |
| Pixels.BytesOf | src/main/main.cpp:72-74 | packing three bytes and splitting the result gives the bytes back |
| Pixels.GetAfterSet | src/main/main.cpp:43-79 | reading a pixel just written gives the colour without its top byte |
| Pixels.GetAfterSetElsewhere | src/main/main.cpp:43-79 | writing one pixel does not change any other pixel |
| Pixels.GetAfterSetAny | src/main/main.cpp:43-79 | after a 24-bit colour is written to one pixel, reading any pixel of the image gives that colour there and the old value everywhere else |
| Pixels.SetWhatWasRead | src/main/main.cpp:140-147 | writing back what was read leaves the image unchanged, so the disabled copy loop is the identity |
| Pixels.SetI | src/main/main.cpp:57-60 | `seti` writes exactly inside the centred range `-(w/2) <= x < w - w/2`, `h/2 - h < y <= h/2`, and changes nothing outside it |
| Pixels.GetI | src/main/main.cpp:80-83 | `geti` returns a 24-bit value, and 0 outside the centred range |
| Pixels.GetIAfterSetI | src/main/main.cpp:57-83 | reading a centred pixel just written gives the colour without its top byte |
| Pixels.CentredCoordinates | src/main/main.cpp:57-83 | the absolute pixel `(ax, ay)` is the centred pixel `(ax - w/2, h/2 - ay)`, for reading and for writing |
| BoxFilter.MeanFits | src/main/main.cpp:128-132 | the 32-bit sum of a block never wraps, and the mean is a 24-bit value |
| BoxFilter.UniformBlock | src/main/main.cpp:128-136 | a block of one colour keeps its colour |
| BoxFilter.ReadBlock | src/main/main.cpp:123-126 | for a block inside the image, `r[iy * 4 + ix]` holds the pixel `(x + ix, y + iy)` |
| BoxFilter.Average | src/main/main.cpp:128-132 | the accumulated `average` is the block's sum divided by 16, and it is below 2^24 |
| BoxFilter.WriteBlock | src/main/main.cpp:134-136 | the 16 pixels of the block hold the average, and every other pixel is unchanged |
| BoxFilter.Untouched | src/main/main.cpp:119-126 | when a block is read, the loop has not yet written any of its pixels |
| BoxFilter.Step | src/main/main.cpp:121-137 | one pass of the inner loop body turns one more block into its mean and touches nothing else |
| BoxFilter.BoxAverage | src/main/main.cpp:117-138 | each pixel of a visited block ends up holding the mean of that block as it was in the original image, and every other pixel is unchanged |

## Left out

- `utility.py` is not part of this model. `Type` is modelled from its four uses as `Utility.ModuleType`.
- Reading files, `os.path.exists`, `os.chdir` and `json.load` are not modelled. All files are looked up in one map. This assumes `os.chdir(source)` followed by `os.chdir('..')` (baker.py:63, 101) returns to the starting directory. That holds only when `dirs.source` is a single relative path component that exists; the model does not check that. Python runs the `chdir` even when there are no sources.
  - The bakerfile arrives parsed, or is absent.
  - Each source file arrives as the list of its lines, in a map from file name to lines. A name missing from the map stands for a file that cannot be opened.
- A parsed JSON object is a Python dict, so its keys are distinct. The association lists that model it allow duplicate keys, and `Lookup` takes the first. The lemmas that depend on this assume distinct keys.
- `handle_args`, `parse_args` and `process_args` are not modelled. They handle the command line and printing.
- `build_dependency_tree` is left out because its body is `pass`.
- `Node.__repr__`, the `print(node)` in `gen_classes`, and `eprint` are not modelled. They only produce output.
- `Node.check` is not run again inside the `gen_classes` loop. `Baker.NodeBuilds` proves it always passes on a classification, so the loop builds the node directly.
- The `RuntimeError` for an unknown `Type` (baker.py:93-94) cannot be reached: every classification has one of the four kinds.
- `gen_classes` classifies all sources first and then folds over the results in order. The fold stops at the first failure, exactly where the loop stops, so the outcome is the same.
- Python sets of distinct `Node` objects hash by identity. The plain nodes are modelled as a list with one entry per plain source.
- `make_targets` leaves behind only its final state: the last target's index and the root.
- The floating-point accessors `set` and `get` are left out because they involve floating-point rounding. So are the line sweep and the unused circle loop (main.cpp:61-63, 84-86, 98-115).
- The `rect` helper (main.cpp:88-96) is not modelled because it is never called.
- The byte-by-byte copy loop (main.cpp:149-154) is left out. It assigns each byte to itself.
- The netpbm reader and writer, the logger and the exception handlers are left out. The `image` and `logger` modules are not part of this model.
- The image is modelled as its width, its height and an immutable sequence of bytes, and writes return a new image. The byte count is fixed at three per pixel, as the program sets `depth = 3`.
- Bytes and `uint32_t` are modelled as integer ranges, not machine words:
  - `& 0xff` becomes `% 256` and `>> 8` becomes `/ 256`.
  - An `|` of bytes in disjoint bit ranges becomes their sum.
  - The `uint32_t` accumulation of the block sum wraps modulo 2^32. `BoxFilter.MeanFits` shows it never does.
- Pixels.Loc: width and height are natural numbers. The `int` arithmetic of `(y * width + x) * 3` is not checked for 32-bit overflow, which would need an image of more than about 2^29 pixels.
- Pixels.SetI and Pixels.GetI: `x + width / 2` and `-y + height / 2` (main.cpp:59, 82) overflow `int` for any image size when `x` is close to `INT_MAX` or `y` is `INT_MIN`. That is undefined behaviour in C++. With unbounded integers the model answers `false` and 0 there.
- BoxFilter.BoxAverage: the bounds `height - each - 1` and `width - each - 1` are taken as signed integers. If the netpbm header stored unsigned sizes, an image narrower or shorter than 5 pixels would wrap around there.
- Bakerfile.KeyError: a float element equal to an earlier integer element of a list document is skipped by Python, because `in` compares `1.0 == 1`. The model reports it as `TypeError`. This changes the error only for lists that already hold `"targets"`, so such a list is refused either way.
- BoxFilter.ReadBlock: the uninitialised array `r[16]` is modelled as a sequence built by appending in the same `iy`, `ix` order.
- Baker.GenClasses: its own contract states only the case without sources. Success, the index and the root are characterised by `BakerProperties.GenClassesSucceeds` and `BakerProperties.GenClassesResult`.
