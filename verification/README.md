# nvdoc class discovery, modelled in Dafny

nvdoc (`Nvkode\Nvdoc`) scans a directory of a Composer project for PHP classes and
collects reflection information about them. This project models that core:

- `ClassNames` (`class_names.dfy`) models how findFiles turns a PSR-4 namespace prefix and a
  file's relative pathname into a candidate class name. The prefix loses its trailing `\`.
  The pathname loses every `.php` occurrence, in one left-to-right pass, and its `/` become `\`.
  The two parts are joined by exactly one `\`.
- `FileHelper` (`file_helper.dfy`) models `FileHelper::findFiles` and
  `FileHelper::getDefinedNamespaces`:
  - With no files, the result is empty and the manifest is never read.
  - Otherwise the loop runs file by file, then over the PSR-4 entries of composer.json.
    It keeps each candidate for which `class_exists` holds, duplicates included.
- `Nvdoc` (`nvdoc.dfy`) models `Nvdoc::getFilesInformation`, a fold of the found names into a map:
  - Each name is passed to reflection; a failure is skipped.
  - Each success stores an eight-entry record under the class name that reflection reports.
  - A later write to the same key replaces an earlier one.
  
  It also models `Nvdoc::getVersion`.
- `Options` (`options.dfy`) is the optional-value type.

The environment becomes parameters:
- The directory walk is the sequence of relative pathnames it yields.
- `class_exists` is a predicate `string -> bool`.
- A reflection attempt is a function from a name to an optional `Reflection`. `None` stands for
  the exception that the try/catch swallows. The values PHP's reflection returns are of an opaque type `V`.
- The manifest is an optional sequence of PSR-4 entries. `None` covers every way reading or
  decoding composer.json can fail. Each entry's directory has an abstract type, since findFiles
  never looks at it.
- The Composer root package is a map from string keys to strings.

Line 84 of the FileHelper deletes every `.php` occurrence anywhere in the pathname, not only a
trailing extension: `a.phpx/B.php` gives `ax\B`, and a file `Bar.inc` gives `Bar.inc`.
`ClassNames.StripPhp`, `ClassNames.ConvertPathExampleInnerPhp` and
`ClassNames.StripPhpExampleSinglePass` pin this down.

The loops are modelled twice:
- as recursive functions (`ScanRow` and `ScanFiles` for the two loops of findFiles, `Collect` for getFilesInformation);
- as methods that mirror the PHP loops (`ScanLoop`, `FindFilesLoop`, `GetFilesInformationLoop`,
  `StrReplacePhp`), each proved equal to its function.

## Model

| member | source | states |
|---|---|---|
| ClassNames.TrimSeparators | src/Helpers/FileHelper.php:83 | the trimmed prefix is a prefix of the input, never ends in `\`, and only `\` characters were removed |
| ClassNames.TrimSeparatorsUnique | src/Helpers/FileHelper.php:83 | for an input of the form t followed by n `\`, where t does not end in `\`, trimming gives exactly t |
| ClassNames.TrimSeparatorsIdempotent | src/Helpers/FileHelper.php:83 | trimming an already trimmed prefix changes nothing |
| ClassNames.TrimSeparatorsAbsorbsTrailing | src/Helpers/FileHelper.php:83 | appending any number of `\` to a prefix does not change its trimmed form |
| ClassNames.TrimSeparatorsExample | src/Helpers/FileHelper.php:83 | the prefix `Foo\` trims to `Foo` |
| ClassNames.StripPhp | src/Helpers/FileHelper.php:84 | one left-to-right pass that deletes each non-overlapping `.php` and resumes after it; the result is never longer than the pathname |
| ClassNames.PhpAtIsSubstring | src/Helpers/FileHelper.php:84 | the character-by-character test for an occurrence of `.php` at a position is the same as comparing the four-character substring there with `.php` |
| ClassNames.StrReplacePhp | src/Helpers/FileHelper.php:84 | the cursor-and-buffer scan that deletes `.php` computes the same string as the one-pass definition |
| ClassNames.StripPhpWithoutPhp | src/Helpers/FileHelper.php:84 | a pathname with no `.php` in it is unchanged by the deletion |
| ClassNames.StripPhpShrinks | src/Helpers/FileHelper.php:84 | a pathname containing `.php` at any position gets strictly shorter |
| ClassNames.StripPhpUnchangedIff | src/Helpers/FileHelper.php:84 | the deletion leaves a pathname unchanged if and only if it contains no `.php` |
| ClassNames.StripPhpKeepsOtherCharacters | src/Helpers/FileHelper.php:84 | every character outside `.php` occurs as often after the deletion as before |
| ClassNames.StripPhpAppend | src/Helpers/FileHelper.php:84 | the deletion distributes over concatenation when the second part cannot complete a `.php` begun in the first |
| ClassNames.StripPhpExampleInner | src/Helpers/FileHelper.php:84 | `.php` inside a name is removed too: `a.phpx` becomes `ax` |
| ClassNames.StripPhpExampleSuffix | src/Helpers/FileHelper.php:84 | `Bar.php` becomes `Bar` |
| ClassNames.StripPhpExampleSinglePass | src/Helpers/FileHelper.php:84 | the pass is single: `..phpphp` becomes `.php`, which a second pass would change again |
| ClassNames.SlashesToSeparators | src/Helpers/FileHelper.php:84 | the length is kept, every `/` becomes `\` at the same position, every other character stays where it was, so no `/` is left and a string without `/` is unchanged |
| ClassNames.SlashesToSeparatorsOne | src/Helpers/FileHelper.php:84 | a single `/` becomes `\` and any other single character stays; with the append law this fixes the replacement on every string |
| ClassNames.SlashesToSeparatorsAppend | src/Helpers/FileHelper.php:84 | replacing `/` by `\` distributes over concatenation |
| ClassNames.ConvertPath | src/Helpers/FileHelper.php:84 | the converted pathname contains no `/` and is no longer than the pathname |
| ClassNames.ConvertPathUnchangedIff | src/Helpers/FileHelper.php:84 | a pathname converts to itself if and only if it has neither `.php` nor `/` |
| ClassNames.ConvertPathSegments | src/Helpers/FileHelper.php:84 | converting `a/b` gives the conversion of `a`, then `\`, then the conversion of `b` |
| ClassNames.ConvertPathComponentwise | src/Helpers/FileHelper.php:84 | a pathname of several `/`-separated names converts to those names, each without its `.php`, joined by `\` |
| ClassNames.ConvertPhpFile | src/Helpers/FileHelper.php:84 | a file `name.php` becomes the class name `name` when `name` has neither `.php` nor `/` |
| ClassNames.Candidate | src/Helpers/FileHelper.php:81-85 | the candidate is at most one character longer than the prefix and pathname together |
| ClassNames.CandidateParts | src/Helpers/FileHelper.php:81-85 | the candidate is the trimmed prefix, one `\`, then the converted pathname, which has no `/` |
| ClassNames.CandidateIgnoresTrailingSeparators | src/Helpers/FileHelper.php:81-85 | prefixes differing only in trailing `\` give the same candidate |
| ClassNames.CandidateSubdirectory | src/Helpers/FileHelper.php:81-85 | a file in a sub-directory lands in the matching sub-namespace of the candidate for the directory |
| ClassNames.ConvertPathExampleNested | src/Helpers/FileHelper.php:84 | `Sub/Bar.php` becomes `Sub\Bar` |
| ClassNames.CandidateExampleNested | src/Helpers/FileHelper.php:81-85 | prefix `Foo\` and pathname `Sub/Bar.php` give `Foo\Sub\Bar` |
| ClassNames.ConvertPathExampleInnerPhp | src/Helpers/FileHelper.php:84 | `a.phpx/B.php` becomes `ax\B` |
| ClassNames.CandidateExampleInnerPhp | src/Helpers/FileHelper.php:81-85 | prefix `Foo` and pathname `a.phpx/B.php` give `Foo\ax\B` |
| FileHelper.DefinedNamespaces | src/Helpers/FileHelper.php:104-120 | the PSR-4 entries of a manifest that was read and decoded, and none otherwise, with no error |
| FileHelper.ScanRow | src/Helpers/FileHelper.php:80-90 | the inner foreach over the PSR-4 entries for one file, in manifest order; every name it collects denotes an existing class |
| FileHelper.ScanFiles | src/Helpers/FileHelper.php:79-91 | the outer foreach over the files, each file's inner loop in turn; every name it collects denotes an existing class |
| FileHelper.FindFiles | src/Helpers/FileHelper.php:70-96 | the manifest is read if and only if there are files, and no files give no names |
| FileHelper.ScanLoop | src/Helpers/FileHelper.php:79-91 | the two nested foreach loops append exactly the names of the recursive definition, in order |
| FileHelper.FindFilesLoop | src/Helpers/FileHelper.php:70-96 | the method with its early exit computes findFiles, including whether the manifest was read |
| FileHelper.FindFilesLength | src/Helpers/FileHelper.php:79-91 | at most one name per pair of a file and a PSR-4 entry |
| FileHelper.CellsIncreasing | src/Helpers/FileHelper.php:79-91 | the pairs (file, entry) the nested loop keeps come out in strictly increasing file-major, entry-minor order |
| FileHelper.CellsExactlyKept | src/Helpers/FileHelper.php:79-91 | a pair (file, entry) is kept if and only if the name built from it denotes an existing class |
| FileHelper.ScanFilesIsNames | src/Helpers/FileHelper.php:79-91 | the nested loop's output is the built name of each kept pair, position by position |
| FileHelper.FindFilesInVisitingOrder | src/Helpers/FileHelper.php:79-91 | the result lists the names of the kept pairs in strictly increasing file-major, entry-minor order; a pair is listed if and only if its candidate class exists |
| FileHelper.FindFilesMembership | src/Helpers/FileHelper.php:79-91 | a name is in the result if and only if it is the candidate of some file under some PSR-4 prefix and that class exists |
| FileHelper.FindFilesKeepsDuplicates | src/Helpers/FileHelper.php:80-89 | two PSR-4 prefixes differing only in trailing `\` report the same class twice |
| FileHelper.FindFilesIgnoresDirectories | src/Helpers/FileHelper.php:80-85 | manifests with the same prefixes in the same order give the same result, whatever directories they map to |
| FileHelper.FindFilesWithoutManifest | src/Helpers/FileHelper.php:104-120 | an unreadable manifest finds nothing, exactly as a manifest with an empty PSR-4 section does |
| Nvdoc.RecordOf | src/Nvdoc.php:89-98 | each of the eight record entries is the matching reflection query, unchanged |
| Nvdoc.Step | src/Nvdoc.php:86-101 | a reflection failure leaves the map as it is; a success adds or replaces exactly the entry under the reflected name and keeps every other entry |
| Nvdoc.Collect | src/Nvdoc.php:85-102 | the foreach over the class names as a left fold of Step; it only ever adds keys, never removes one |
| Nvdoc.GetFilesInformation | src/Nvdoc.php:81-106 | no files give the empty map |
| Nvdoc.GetFilesInformationLoop | src/Nvdoc.php:81-106 | the foreach with its try/catch computes the fold |
| Nvdoc.CollectAppend | src/Nvdoc.php:85-102 | running the loop over `a + b` is running it over `a` and then over `b` |
| Nvdoc.FailureSkipped | src/Nvdoc.php:86-101 | a name whose reflection fails can be removed from the list without changing the result |
| Nvdoc.CollectKeys | src/Nvdoc.php:85-102 | the keys are the earlier keys plus the reflected names of the names that reflect without failure |
| Nvdoc.LastWriteWins | src/Nvdoc.php:89 | the value under a key is the record of the last name that reflects to that key |
| Nvdoc.GetFilesInformationKeysAreReflectedNames | src/Nvdoc.php:81-106 | the keys of the result are exactly the reflected names of the classes findFiles returns, whatever the order or duplicates |
| Nvdoc.GetFilesInformationKeys | src/Nvdoc.php:81-106 | a key is in the result if and only if it is the reflected name of some existing candidate class of a listed file under a PSR-4 prefix |
| Nvdoc.GetFilesInformationNothingResolves | src/Nvdoc.php:81-106 | a directory none of whose candidates exists yields the empty map |
| Nvdoc.GetFilesInformationKeyedByReflectedName | src/Nvdoc.php:87-89 | one file and one entry whose candidate exists give exactly one record, stored under the reflected name rather than the candidate |
| Nvdoc.CandidateExampleLowerCase | src/Helpers/FileHelper.php:81-85 | prefix `Foo\` and pathname `bar.php` give `Foo\bar` |
| Nvdoc.GetFilesInformationExample | src/Nvdoc.php:87-89 | the candidate `Foo\bar` reflecting to the class `Foo\Bar` is stored only under `Foo\Bar` |
| Nvdoc.GetVersion | src/Nvdoc.php:59-69 | the root package's `version` when that key is present, `0.0.1` otherwise |
| Nvdoc.GetVersionReadsOnlyVersion | src/Nvdoc.php:63-67 | root packages that agree on `version` report the same version, whatever else they hold |

## Left out

- Directory enumeration with Symfony Finder is left out; the model takes the pathnames it yields as input. That covers the recursion, which files count as regular files, and their order. `Finder::in` adds directories to a Finder that the FileHelper keeps, so a second findFiles call also lists the first call's directory. A missing directory raises an exception from the Finder. Both are Finder state and behaviour.
- Relative pathnames use `/` as the directory separator. On Windows the Finder yields `\`, which the replacement leaves alone. The model does not cover that platform.
- Reading and decoding composer.json (file_get_contents, json_decode) are left out. Every failure and every missing `autoload`/`psr-4` member is the single `None` case, because the code maps them all to an empty list without raising an exception.
- The PHP warnings those failures emit on the way are not modelled. A missing composer.json makes file_get_contents warn that it failed to open the stream. A missing `autoload` member warns of an undefined property, and a failed decode warns of reading a property on null. The model keeps only the resulting empty list.
- A `psr-4` value that is not a JSON object is not modelled. Line 112 of the FileHelper casts the decoded value to an array. `null` and an empty list give an empty array. Any other value gives an array keyed `0, 1, …`: a string, a number, a boolean, or a non-empty list. With strict types on, rtrim on line 83 then throws a TypeError for the integer key. That error escapes findFiles and getFilesInformation whenever the directory has files. The model takes every PSR-4 entry as a string prefix and does not cover this error. Which of several duplicate keys in the object survives is decided by the JSON decoder and is not modelled.
- A PSR-4 key that is a canonical decimal integer, such as `123` or `-5` (but not `0123`), becomes an integer array key in PHP, and with strict types on, rtrim then throws a TypeError. The model treats every prefix as a string.
- Nvdoc.GetFilesInformation: the result is modelled as a map, so the order of the PHP array is not. In PHP an overwritten key keeps the position of its first write, so a caller iterating the array sees the classes in the order they first reflected, each with the record of its last reflection. The model states which keys there are and which value each holds (`Nvdoc.CollectKeys`, `Nvdoc.LastWriteWins`), not their order.
- `class_exists` may trigger autoloading, with arbitrary side effects and possibly an uncaught Error. The model treats it as a pure predicate.
- The contents of a ReflectionClass are opaque values; methods, attributes, properties and the rest are not modelled further. A Throwable that is not an Exception (an Error) escapes the try/catch in the source; the model has only "reflection succeeds" and "reflection throws an Exception".
- Composer's InstalledVersions singleton is replaced by the root-package array, passed in as a map of strings. Its entries of other types (`aliases`, `dev`) are never read by getVersion.
- The FileHelper and Nvdoc constructors only store the root directory and create the Finder; they have no behaviour to model.
- tests/NvdocTest.php declares a test class with no tests, so there is nothing in it to model.
