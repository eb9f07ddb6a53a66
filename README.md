# ObjectCutter dataset converter — a Dafny model of its main script

`main.py` is the entry point of a command-line tool. The tool cuts the
annotated objects out of a video-annotation dataset. A dataset is a directory
holding a CVAT-style XML annotation file and an `images` directory of frames.
This project models the parts of `main.py` that decide something, and proves
what they do:

- **the class-list reader** `parse_classes` (module `ClassList`): with no
  path it gives an empty list. A path that is not an existing regular file
  raises `FileNotFoundError`. Otherwise every line of the file, stripped of
  line feeds, is split with the regular expression `\s*;\s*`, and the pieces
  of all lines are returned in file order. The regular-expression split is
  modelled as a scanner (`SplitRow`). It is specified independently as the
  unique way of cutting the row into pieces and separators (`IsSplitting`).
- **the output directory** (module `Paths`): the `-o` value, or else
  `ObjectCutter_output` joined onto the working directory with POSIX
  `os.path.join`.
- **the annotation-file search** (module `Annotations`): the nested loop
  over `os.walk` that remembers the path of every file whose lower-cased
  name ends in `.xml`. The last such file wins, and the result is `""` when
  there is none.
- **the main block** (module `Cutter`): it chooses the output directory,
  decides whether to create it, locates the annotation file, and names the
  images directory it passes to `convert_dataset`.

Supporting modules:

- `Text` models the Python string operations involved: `\s` as
  `str.isspace`, `str.strip('\n')`, `str.count`, `str.lower`,
  `str.endswith` and `str.join`.
- `FileSystem` models the file system as a map from paths to entries.
- `Wrappers` holds the `Option` and `Result` types.

## Model

| member | source | states |
|---|---|---|
| ClassList.SplitRowCharacterized | main.py:13 | `SplitRow(s) == ps` exactly when `s` can be cut into the pieces `ps` interleaved with separators that each match `\s*;\s*` as a whole, and no piece begins or ends with whitespace next to a separator. This holds in both directions. |
| ClassList.SplitRowIsSplitting | main.py:13 | The scanner's pieces, interleaved with the matched separators, rebuild the row. Every separator is one `;` surrounded by whitespace only. No piece has whitespace next to a separator. |
| ClassList.SplittingIsUnique | main.py:13 | Any cut of the row into pieces and such separators has exactly the pieces `re.split` returns. |
| ClassList.SplitRowCount | main.py:13 | A row yields exactly one more piece than it has `;` characters. |
| ClassList.SplitRowPieces | main.py:13 | No piece contains a `;`. A character absent from the row is absent from every piece. |
| ClassList.JoinSplitRow | main.py:13 | `';'.join(re.split(pattern, s)) == s` holds exactly when no whitespace character stands next to a `;` in `s`. |
| ClassList.SplitRowKeepsOuterSpace | main.py:13 | `" car ; bus "` splits into `[" car", "bus "]`. Whitespace at the ends of a row is kept, and whitespace next to `;` is dropped. |
| ClassList.SplitRowKeepsEmptyPieces | main.py:13 | `"a;;b"` splits into `["a", "", "b"]`, and the empty row into `[""]`. Empty pieces are kept. |
| ClassList.SingleRow | main.py:13 | A row without `;` splits into itself. |
| ClassList.LinesFrom | main.py:37-38 | Iterating over the file yields nonempty lines. Each line has a line feed only at its end, and every line except the last ends in one. |
| ClassList.FileLinesConcat | main.py:37-38 | The lines, concatenated, give back the whole file text. |
| ClassList.StripLine | main.py:38 | After `strip('\n')` a line has no line feed left and still has all its `;` characters. |
| ClassList.ParseClasses | main.py:32-39 | No path or an empty path gives `Ok([])`. The result is an error exactly when a nonempty path is not a regular file, and that error carries the path. Otherwise the result is the parse of that file's text. |
| ClassList.ParseLinesAppend | main.py:38 | The entries of consecutive lines are concatenated in order, with no deduplication. |
| ClassList.ParseLinesCount | main.py:38 | Any sequence of rows gives one entry per row plus one for every `;` in the rows. |
| ClassList.ParseLinesEntries | main.py:38 | No entry contains a `;` or a line feed. |
| ClassList.ParseTextShape | main.py:37-38 | A file gives as many entries as it has lines plus `;` characters. No entry contains a `;` or a line feed. |
| ClassList.ParseTextExample | main.py:37-38 | The file text `"car; pedestrian\ntruck"` gives `["car", "pedestrian", "truck"]`. |
| Text.StripNewlines | main.py:38 | `strip('\n')` never lengthens a string, and the result neither starts nor ends with a line feed. |
| Text.StripNewlinesInfix | main.py:38 | `strip('\n')` gives a contiguous slice `s[i..j]` of its input. Everything before `i` and from `j` on is a line feed, so the middle of the string is kept as it is. |
| Text.StripNewlinesKeeps | main.py:38 | `strip('\n')` keeps every occurrence of every character other than the line feed. |
| Text.StripLineTerminator | main.py:38 | Stripping a line that ends in its line feed gives the line's text. Stripping a text without a line feed changes nothing. |
| Paths.PathJoin | main.py:61 | `os.path.join(a, b)` ends with `b`. It is `b` itself when `b` is absolute, and otherwise starts with `a`. It is exactly one of `b`, `a + b` and `a + "/" + b`, so at most one `/` is put between the two. |
| Paths.BaseNameOfJoin | main.py:61 | Joining a name without `/` onto a directory gives a path whose last component is that name. |
| Paths.OutputDir | main.py:58-61 | A nonempty `-o` value is the output directory. Otherwise the output directory is `ObjectCutter_output` joined onto the working directory. |
| Paths.DefaultOutputDir | main.py:58-61 | Without an `-o` value, the output directory lies inside the working directory and its last component is `ObjectCutter_output`. It is exactly `cwd + "/ObjectCutter_output"` when `cwd` is nonempty and does not end in `/`, and `cwd + "ObjectCutter_output"` otherwise. |
| Annotations.WalkFilesHas | main.py:68-69 | The walk meets the file `f` in directory `d` exactly when some `(dirname, dirs, files)` triple of `os.walk` has `dirname == d` and lists `f` in `files`. |
| Annotations.SelectAnnotationFile | main.py:67-71 | The nested loop returns the joined path of the last `.xml` file in walk order, or `""` when there is none. |
| Annotations.SelectNext | main.py:70-71 | One more file replaces the selection exactly when its name is an `.xml` name. |
| Annotations.XmlNames | main.py:70 | `"A.XML"`, `"scene.Xml"` and `".xml"` qualify. `"xml"`, `"a.xml.bak"` and `"a_xml"` do not. |
| Annotations.XmlNameChars | main.py:70 | For every name, `f.lower().endswith('.xml')` holds exactly when the name has at least four characters and ends in a dot followed by `x`, `m` and `l`, each in either case. |
| Annotations.XmlPathsEmpty | main.py:67-71 | No path is collected exactly when no file of the walk has an `.xml` name. |
| Annotations.XmlPathsLast | main.py:67-71 | When `found[k]` is the last `.xml` file, the last collected path is its joined path. |
| Annotations.SelectionIsLastXml | main.py:67-71 | The selection is `""` exactly when no file has an `.xml` name. Otherwise it is `os.path.join(dirname, f)` of the last `.xml` file met. |
| Cutter.PlanRun | main.py:54-73 | The main block fails exactly when the output directory exists as something other than a directory. Otherwise it chooses the output directory of `OutputDir`, and creates it exactly when it is missing. It passes the last `.xml` path of the walk and `source_directory + "/images"` to the converter. |

## Left out

- `parse_args` and the Python version check (main.py:9-30) are not modelled. Command-line parsing is plumbing. `Args` holds the parsed values after `os.path.abspath`, which is not modelled either.
- `convert_dataset` (main.py:41-50) and the XML library it calls are not part of this model. `PlanRun` stops at the arguments it would pass.
- Real file I/O is not modelled. The contents of a file are given as text after Python's universal-newline translation, so `\r\n` and `\r` line endings are not modelled. Encoding errors and permission errors are not modelled.
- `os.walk` is given as its sequence of `(dirname, dirs, files)` triples. Its traversal order, which depends on the operating system, is an input.
- `os.makedirs` is reduced to a decision: create when missing, fail when the path exists but is not a directory. Its effect on the file system, the creation of missing parent directories, and other OS errors are not modelled.
- The `threads` option is parsed but unused by the source, so it is only a field of `Args`.
- `parse_classes` is not called by the main block, where its call (main.py:57) is commented out. `Cutter.PlanRun` therefore does not read a class list.
- Text.Lower: lower-cases only the ASCII letters. Python also lower-cases other letters. No non-ASCII character lower-cases to one of `.`, `x`, `m` or `l`, so the `.xml` test is unaffected.
- `\s` is modelled as the set of characters for which Python's `str.isspace` holds. Python's `re` uses the same set for `str` patterns.
- Class names are trimmed only next to `;`. Whitespace at the start and end of a line is kept, as the source does, even though the tool's description speaks of trimmed class names.
- Paths.PathJoin: models POSIX `os.path.join` with two arguments only, which is all the source uses.
