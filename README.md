# The SUMMARY.md index generator, modelled in Dafny

The documentation tooling of the repository builds an mdBook site from the Markdown files under
`docs/`. Its index generator (`scripts/docs/generate_index.go`) does the following:

- It walks the documentation tree.
- It writes `docs/src/SUMMARY.md`, which is the heading `# Summary` followed by bullet lines: one for each walked directory that holds Markdown, and one for each Markdown file that its collector finds at any depth below it (see the quirks below). A nested file is therefore listed again in the block of every walked ancestor. A line has the form `<indent>- [<Title>](<link>)`, with two spaces of indent per level.
- It copies every listed file into `docs/src`, which mdBook builds from.

This project models that generator and proves what it writes. It has three layers.

1. **Pure definitions** of the ingredients:
   - Go's string and path helpers (`GoStrings`).
   - Sorting, and the name order of `os.ReadDir` (`Sorting`).
   - The source tree as a value: a `File(content)` or a `Dir(children)` (`FileTree`).
   - `prettify` (`Titles`).
   - `hasMarkdownFiles` (`Scanner`).
   - Everything one run writes, as a `Trace` of summary lines and `copyFile` calls, computed from the tree alone (`Summary`).
2. **The generator itself** (`Index`). It is a class whose two fields the methods update step by step:
   - `summary` holds the lines written to the open summary file.
   - `mirror` holds the files under `docs/src` that copies write, by path. The summary file `docs/src/SUMMARY.md` itself is modelled by `summary` and is not part of `mirror`.

   `walkDir` and `generateIndex` are methods with the loops of the source, over the sorted Markdown files, the sorted sub-directories and the sorted top-level entries. They are proved to write exactly the summary lines of the `Trace` and to leave `mirror` exactly as its copies make it. The other operations are modelled the same way:
   - `copyFile` is a method on `mirror`.
   - The Markdown collector is a method with its accumulation loop.
   - `sort.Strings` is an insertion sort in place on an array.
   - The ignore test is the linear search of the source.
3. **Properties** of what a run writes (`SummaryFacts`, `CollectOnce`, `Mirroring`, `DestOnly`):
   - Which files are listed, that each is listed once within the block of each directory that collects it, and in which order.
   - The exact text of directory and file lines.
   - Where the blank lines fall.
   - The indentation discipline.
   - The first-chapter rule.
   - That every link in the summary is matched by a copy, from an existing source, to the linked path under `docs/src`. In the model's flat view of `docs/src` that path then holds a file. "## Left out" names the trees where a real filesystem refuses such a copy.
   - That every copy of a run has its destination under `docs/src/`, so no other file is overwritten by a copy.

### Quirks of the code that the model keeps

- `hasMarkdownFiles` and the README test of `walkDir` use `os.Stat`, which succeeds for an entry of any type. A *directory* named `README.md` therefore counts as a README. It gets a linked line, and its "copy" creates an empty destination file before the read fails. When that directory itself holds Markdown, the copies below it then fail in `os.MkdirAll`, because the empty file is in the way (see "## Left out").
- A directory with a README always has `include` set, because the README fast path of `hasMarkdownFiles` makes it so. So its block always ends with a blank line, even when the directory holds nothing else.
- The comment at line 117 speaks of the Markdown files "in the current directory", but the collector in `walkDir` (lines 119-128) does not prune sub-directories. `filepath.WalkDir` descends anyway. Every Markdown file anywhere below the directory is listed under it, including files inside ignored directories. Each is linked and copied flat as `<rel>/<basename>`. The listing is sorted by full path, not by basename.
- A file is skipped as a README when its name merely ends in `README.md`, compared case-sensitively. The `.md` test is case-insensitive, while `TrimSuffix(…, ".md")` is case-sensitive.
- The guard that skips the destination directory (comment at line 95) is a plain string-prefix test. `docs/srcfoo` is skipped as well.

## Model

| member | source | states |
|---|---|---|
| Titles.PrettifyWords | scripts/docs/generate_index.go:23-35 | the words of a title are the words of the name after '-' and '_' become spaces, each with its first letter upper-cased and the rest lower-cased; the title is those words joined by exactly one space and contains no '-' or '_' |
| Titles.PrettifyIdempotent | scripts/docs/generate_index.go:23-35 | prettifying a title again leaves it unchanged |
| Titles.PrettifyEmpty | scripts/docs/generate_index.go:23-35 | the empty name gives the empty title |
| Titles.PrettifyExample | scripts/docs/generate_index.go:22-35 | "my_file-name" becomes "My File Name" |
| Titles.PrettifyIntroduction | scripts/docs/generate_index.go:23-35 | the first chapter's directory name "introduction" becomes "Introduction" |
| Titles.SpacedHasNoSeparators | scripts/docs/generate_index.go:25-26 | after the two ReplaceAll calls no '-' or '_' is left |
| Titles.SeparatorsExample | scripts/docs/generate_index.go:25-26 | "my_file-name" becomes "my file name" before splitting |
| Titles.FieldsAreWords | scripts/docs/generate_index.go:29 | every field of strings.Fields is non-empty and free of white space |
| Titles.FieldsKeepsText | scripts/docs/generate_index.go:29 | strings.Fields loses no text: its fields, written one after another, are the name with its white space removed |
| Titles.FieldsMaximal | scripts/docs/generate_index.go:29 | strings.Fields splits at maximal runs: the name is its fields with runs of white space woven between them, and every run between two fields is non-empty |
| Titles.FieldsOfJoin | scripts/docs/generate_index.go:29-35 | splitting words that were joined with single spaces gives the same words back (Fields is the inverse of Join) |
| Titles.CapitalizeWord | scripts/docs/generate_index.go:30-34 | rewriting a word keeps it a word, adds no separators, and rewriting it twice changes nothing more |
| Titles.CapitalizeAllAt | scripts/docs/generate_index.go:30-34 | the loop rewrites word i, and only word i, into its capitalized form |
| Scanner.HasMarkdownFilesIff | scripts/docs/generate_index.go:40-59 | hasMarkdownFiles(dir) holds exactly when dir/README.md exists (of any type) or a regular file whose lower-cased name ends in ".md" lies anywhere below dir; a directory that cannot be read has none |
| Scanner.AnyMarkdownIff | scripts/docs/generate_index.go:48-58 | the walk counts a Markdown file exactly when some path below the start reaches a regular file with a Markdown name |
| Scanner.HasMarkdownFilesAt | scripts/docs/generate_index.go:40-59 | the test on a path is the test on the tree node found there |
| Index.IndexBuilder.CopyFile | scripts/docs/generate_index.go:63-86 | a missing source returns an open error and writes nothing; a regular file makes dst hold exactly its content; a directory creates dst empty and returns a read error; no other destination changes |
| DestOnly.ApplyCopiesFrame | scripts/docs/generate_index.go:63-86 | copies to other destinations leave a path's presence and content unchanged |
| Mirroring.CopyLands | scripts/docs/generate_index.go:63-86 | once a copy from an existing source is made, its destination exists, whatever copies follow |
| Index.CollectMarkdown | scripts/docs/generate_index.go:118-128 | the collector's loop appends, child by child in name order, the paths the whole sub-tree yields |
| SummaryFacts.MdListMembers | scripts/docs/generate_index.go:119-128 | a path is collected exactly when it is a regular file at any depth below the directory whose name passes the collector's test (not ending in "README.md", lower-cased name ending in ".md") |
| CollectOnce.MdListDistinct | scripts/docs/generate_index.go:119-128 | in a well-formed tree the collector never gathers a path twice, and every path it gathers lies below the directory it starts from |
| CollectOnce.NestedFileListedAgain | scripts/docs/generate_index.go:119-128 | the collector is not pruned: docs/guide/a/x.md is collected both for docs/guide and for docs/guide/a, so it is listed under each |
| CollectOnce.CollectedOnce | scripts/docs/generate_index.go:119-131 | within the block of one directory each Markdown file is listed once (a nested file is listed again in the block of each walked ancestor): the collected paths are pairwise distinct, and after sort.Strings they are strictly ascending |
| SummaryFacts.MdListSound | scripts/docs/generate_index.go:119-128 | every collected path is such a file |
| SummaryFacts.MdListComplete | scripts/docs/generate_index.go:119-128 | every such file is collected, at any depth: the walk is not pruned at sub-directories |
| SummaryFacts.MdListResolves | scripts/docs/generate_index.go:119-128 | every collected path names a regular file of the source tree whose name passes the test |
| SummaryFacts.MdListMarkdown | scripts/docs/generate_index.go:101-128 | a directory that yields a collected file is one hasMarkdownFiles finds Markdown in |
| SummaryFacts.FilesNeedDirectoryLine | scripts/docs/generate_index.go:101-128 | whenever file lines are written, `include` holds, so a directory line precedes them |
| Sorting.SortStrings | scripts/docs/generate_index.go:131 | sort.Strings returns a sorted permutation of its input |
| Sorting.SortInPlace | scripts/docs/generate_index.go:131 | the in-place sort leaves the array sorted and a permutation of what it held |
| Sorting.SortIsSorted | scripts/docs/generate_index.go:131 | the reference sort yields a sorted sequence |
| Sorting.SortedUnique | scripts/docs/generate_index.go:131 | two sorted permutations of the same strings are equal, so every correct sort gives the same order |
| Index.IndexBuilder.SortedMarkdown | scripts/docs/generate_index.go:117-131 | the list walkDir iterates over is the collected paths in ascending full-path order |
| Sorting.SortedNames | scripts/docs/generate_index.go:146 | os.ReadDir lists each entry name once, in ascending order |
| Index.IndexBuilder.ReadSorted | scripts/docs/generate_index.go:146-147 | os.ReadDir followed by sort.Slice by name gives the listing in ascending name order |
| Sorting.SortedListing | scripts/docs/generate_index.go:146-147 | sorting an already strictly sorted listing leaves it as it is |
| SummaryFacts.GuardSkips | scripts/docs/generate_index.go:95-98 | every directory whose path starts with "docs/src" is skipped: no line, no copy |
| SummaryFacts.GuardSkipsPrefix | scripts/docs/generate_index.go:95-98 | a directory whose path merely starts with "docs/src", such as docs/srcfoo, is skipped: no line, no copy |
| Index.IndexBuilder.WriteHeader | scripts/docs/generate_index.go:103-115 | the directory line and the README copy are appended exactly as the trace's header says |
| SummaryFacts.DirectoryLine | scripts/docs/generate_index.go:101-115 | a README implies `include`; when `include` holds the block opens with `indent- [Prettify(base)](rel/README.md)` if README.md exists, else with `indent- [Prettify(base)]()` |
| SummaryFacts.FileLines | scripts/docs/generate_index.go:130-138 | right after the directory line come the file lines of the sorted collected files, one per file, in that order |
| SummaryFacts.FileEntriesShape | scripts/docs/generate_index.go:132-138 | file line j is `indent  - [Prettify(TrimSuffix(base, ".md"))](rel/base)` and copy j goes from the file to docs/src/rel/base |
| SummaryFacts.FileCopies | scripts/docs/generate_index.go:104-138 | the README copy to docs/src/rel/README.md comes first when there is one, then the copies of the listed files in line order |
| Index.IndexBuilder.WriteFiles | scripts/docs/generate_index.go:132-138 | the loop appends one line and makes one copy per file, in order |
| SummaryFacts.BlankThenChildren | scripts/docs/generate_index.go:140-143 | exactly one blank line follows the file lines when `include` holds, none otherwise, and the walks of the sub-directories follow |
| SummaryFacts.SubdirOrder | scripts/docs/generate_index.go:145-167 | the sub-directories descended into are exactly the directory entries whose name is not ignored, in strictly ascending name order |
| Summary.Descend | scripts/docs/generate_index.go:148-163 | a name is kept exactly when it names a directory entry and is not in the ignore list |
| Index.IsIgnored | scripts/docs/generate_index.go:153-160 | the search reports a name exactly when it is in the ignore list |
| Index.IndexBuilder.VisitEntry | scripts/docs/generate_index.go:148-167 | one turn of the loop skips files and ignored names and walks other directories with rel/name and two more spaces of indent |
| Index.IndexBuilder.VisitEntries | scripts/docs/generate_index.go:148-167 | the loop writes the walks of the kept entries in listing order |
| Index.IndexBuilder.WalkSubdirs | scripts/docs/generate_index.go:145-167 | the recursion part of walkDir writes the walks of its sub-directories |
| Index.IndexBuilder.WalkDir | scripts/docs/generate_index.go:94-170 | walkDir appends exactly the lines of the walk of its directory and makes exactly its copies |
| Index.IndexBuilder.constructor | scripts/docs/generate_index.go:181-185 | a freshly created summary file is empty |
| Index.IndexBuilder.WalkFirstChapter | scripts/docs/generate_index.go:190-194 | docs/introduction is walked first, with rel "introduction" and no indent, when it exists |
| SummaryFacts.FirstChapterFirst | scripts/docs/generate_index.go:190-194 | when docs/introduction has a README, the line after the heading is `- [Introduction](introduction/README.md)` |
| SummaryFacts.FirstChapterLine | scripts/docs/generate_index.go:190-194 | the first chapter's walk opens with its directory line |
| SummaryFacts.TopLevelOrder | scripts/docs/generate_index.go:196-215 | the top-level walks are of exactly the directory entries of docs other than introduction and the ignored names, in strictly ascending name order |
| SummaryFacts.KeepTopFacts | scripts/docs/generate_index.go:199-215 | the filter of generateIndex's loop keeps a name exactly when it names a directory that is neither introduction nor ignored, and keeps the order |
| Index.IndexBuilder.VisitTop | scripts/docs/generate_index.go:199-218 | one turn of the top-level loop walks a kept entry with rel = name and no indent, and skips the rest |
| Index.IndexBuilder.WalkTopLevel | scripts/docs/generate_index.go:196-219 | the top-level loop writes the walks of the kept entries, in order |
| Index.IndexBuilder.GenerateIndex | scripts/docs/generate_index.go:174-219 | when docs/src cannot be created or the summary path is a directory, it panics and writes nothing; otherwise the summary is "# Summary" followed by the first chapter's walk and then the other top-level walks, and `mirror` (docs/src apart from SUMMARY.md) holds exactly the old contents with their copies applied |
| SummaryFacts.IndexIndents | scripts/docs/generate_index.go:108-218 | every list line of the summary is indented by a whole number of two-space steps |
| SummaryFacts.MarkdownFreeDocs | scripts/docs/generate_index.go:174-219 | a documentation tree without any Markdown name gives a summary with the heading only and copies nothing |
| Mirroring.SummaryLinksMirrored | scripts/docs/generate_index.go:104-138 | after a run, every link in the summary names a path under docs/src that `mirror`, the flat map of written files, holds: a copy from an existing source was made to it (see "## Left out") |
| Mirroring.WalkBacked | scripts/docs/generate_index.go:94-170 | every linked line of a walk is matched by a copy, from an existing source, to docs/src/<link> |
| DestOnly.IndexInDest | scripts/docs/generate_index.go:104-138 | every copy of a run writes below docs/src/ |
| DestOnly.OutsideDestUnchanged | scripts/docs/generate_index.go:104-138 | a file path outside docs/src holds after a run exactly what it held before: no copy of the run writes it |
| GoStrings.TrimSuffixRestores | scripts/docs/generate_index.go:133 | TrimSuffix removes one trailing ".md" when present, so appending it restores the name; otherwise the name is unchanged |

## Left out

- The confirmation message printed at line 221 is console output only and is not modelled.
- The deferred `Close` calls and the file handle `f` are left out. The summary is modelled as the sequence of lines written to it.
- Permissions, symbolic links and error kinds other than a missing entry are left out. A directory that cannot be found reads as empty, which covers both `os.ReadDir` and `filepath.WalkDir` on it. Both of those skip their errors.
- Entry names are assumed well-formed: non-empty, without '/', and not "." or "..". Under that assumption `filepath.Join` is plain concatenation with '/' and `filepath.Base` is the text after the last '/'. Cleaning of `..` segments is not modelled.
- The order in which summary lines and file copies interleave is not recorded. The model keeps each in program order, and they touch different files.
- Files that `docs/src` held before the run are kept in `mirror` but never read. No walk reads below `docs/src`.
- `os.Create` at line 181 truncates `docs/src/SUMMARY.md`. That file is modelled by `summary` alone, so an entry for that path in the initial `mirror` is left as it was.
- Mirroring.SummaryLinksMirrored: holds of `mirror`, a flat map from path to content, where one path can hold a file and also be a proper prefix of another. On a real filesystem a run's own flattened copy can occupy a path that a later copy needs as a directory. Example: `docs/guide/a/x.md` is copied to `docs/src/guide/x.md` (line 137). The walk of a directory `docs/guide/x.md` then links `guide/x.md/y.md` (line 135), and that copy fails in `os.MkdirAll` (lines 72-74), so the link has no file behind it. A directory named `README.md` that holds Markdown does the same through the copy at line 110. In general the copy fails whenever a directory it needs is a path already occupied by a file. That includes the summary file: a directory `docs/SUMMARY.md` holding Markdown gets copies below `docs/src/SUMMARY.md`, which line 181 created as a file. It also includes a file an earlier run left in `docs/src`. The model does not capture these failures.
- DestOnly.OutsideDestUnchanged: is about the files that copies write. `os.MkdirAll(destDir)` (line 176) also creates the directories `docs` and `docs/src` when they are missing, and directories are not part of `mirror`.
- Index.IndexBuilder.CopyFile: does not model that `os.MkdirAll` creates the destination's parent directories, or a failure of `MkdirAll`, `Create` or `io.Copy` on the destination side. `mirror` is a flat map from path to content.
- Index.IndexBuilder.GenerateIndex: the setup failures are reduced to the two path conditions that make `os.MkdirAll(docs/src)` or `os.Create(docs/src/SUMMARY.md)` fail on the tree. Failures from permissions or the disk are not modelled.
- Titles.PrettifyWords: case mapping covers ASCII letters only, because `strings.ToUpper`/`ToLower` on other code points are not modelled. Slicing the first byte (`w[:1]`) of a multi-byte character is not modelled either.
- Sorting.SortInPlace: `sort.Strings` uses pattern-defeating quicksort. The model sorts by insertion instead. Sorting.SortedUnique shows that any sort produces the same order.
- `hasMarkdownFiles` is stated as a predicate over the tree (`Scanner.HasMarkdownFiles`) rather than a counting loop. Its counter only decides whether the count is positive.
- scripts/docs/setup.go, scripts/docs/build.go, scripts/docs/serve.go and scripts/docs/main.go are not part of this model. They are subprocess wrappers and argument dispatch around the generator.
