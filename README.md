# geopyter core, modelled in Dafny

geopyter assembles a teaching notebook (a "molecule") from sections of other
notebooks ("atoms"). An `@include` cell of the molecule names an atom and one
or more section selectors such as ` h1.Intro -h2.History`. `compose` replaces
each include cell, where it stands, by the cells those selectors pick.

This project models the engine in `geopyter/core.py` that does this work:

- how cells are classified;
- the per-level index of header cells;
- the span of cells each header owns;
- selector parsing and resolution;
- composition;
- the bookkeeping `NoteBook.__init__` performs: user metadata read from the
  first cell, git metadata, and the library table;
- namespaced metadata access, `remove_outputs`, and the file-name rules of
  `read_nb` and `write`.

Module by module:

- `Cells`: notebook cells, geopyter's kinds (`include`, or the notebook
  type), and `structure` (kind to ascending positions).
- `Metadata`: the JSON-like metadata tree, `get_metadata` and `set_metadata`.
- `UserMeta`: the parse of the first cell's `key: value; value` list, and the
  text left behind in that cell.
- `Libs`: the import scan of `get_libs`.
- `Book`: the `NoteBook` class. Its fields are updated in place by
  `set_metadata`, `Cell.set_metadata`, `get_user_metadata` and `get_libs`.
  `Open` is the constructor's loop.
- `Headers`: `get_header_cells`, with fenced code spans removed first.
- `Spans`: `section_start_end`.
- `Selector`: `parse_include`, `get_cells_containing`, and
  `get_sections` / `NoteBook.get_section`. One definition serves both, with
  the parent range's convention as a parameter: `range(start, end)` in
  `get_sections`, `range(start, end + 1)` in `get_section`.
- `Tree`: `get_tree`.
- `Compose`: `compose`. The loader, git lookup and version lookup are the
  parameters of an `Env`; each of them can fail.
- `Outputs`: `remove_outputs`, in place on an array of cells.
- `Paths`: the `.ipynb` rules of `read_nb` and `write`.
- `Text` and `Outcomes`: the Python string operations used, and the
  exceptions as `Result` errors.

Each loop of the source is a method. Each method is proved equal to a
specification function, and the properties are lemmas about those functions.
A Python exception becomes an `Err` carrying its class:

- `IndexError`, `KeyError`, `ValueError`, `NameError`, `AttributeError`,
  `TypeError`, `ImportError`;
- a failure of the git library;
- a failed file read, from the loader.

The model follows the code as written, in Python 2 (`dict.has_key`,
`unicode`). Behaviour worth knowing:

- `get_cells_containing` with no candidates refers to an undefined global
  `nb` and raises `NameError`.
- No match is a failure (`[0]` of an empty list), not an empty result.
- A selector whose first tag is at offset 0 slices from index -1 and never
  resolves.
- A first cell without a `# title` leaves the user-metadata cache unset, so
  building the notebook raises `AttributeError`.
- The notebook's `geopyter` namespace and the user-metadata cache are one
  dict, so the `libs` entry shows in both.
- The `parents` list of `get_tree` is not reset between the headers of one
  level. Over the ascending header lists this does no harm (`Tree.GatheredIsLast`).

Behaviour one might expect that the code does not have:

- `compose` does not recurse into included notebooks, caches nothing and
  checks for no cycles.
- A fence without a closing fence is left in place, and headers after it
  still count.
- Each opened notebook gets only its own metadata; nothing is merged across
  notebooks.

## Model

| member | source | states |
|---|---|---|
| Cells.KindOf | geopyter/core.py:279-288 | a cell is an include exactly when its text contains `@include`; any other cell keeps its notebook type |
| Cells.StructureExact | geopyter/core.py:337-344 | `structure[k]` holds exactly the positions of the cells of kind `k`, each once, in ascending order |
| Metadata.GetMetadata | geopyter/core.py:526-562 | the read fails exactly when a name is asked of an existing namespace that lacks it or is not a dict; it gives `None` exactly when the namespace (or, without one, the top-level name) is missing; `Cell.get_metadata` (312-329) reads the same notebook-level store |
| Metadata.SetMetadata | geopyter/core.py:564-596 | the write fails exactly when a name is written into a namespace that is not a dict; otherwise reading back gives the value written, the top-level keys grow by the target key only, and every other top-level entry and every other entry of the namespace is kept; with a namespace and a name, the namespace gains the key `nm` and no other |
| Book.NoteBook.SetMetadata | geopyter/core.py:564-596 | the notebook's store becomes the written store, reading back gives the value, a failed write changes nothing, and no other field changes |
| Book.NoteBook.SetCellMetadata | geopyter/core.py:293-306 | only cell `idx`'s metadata changes, to the written store; a failed write changes nothing |
| Book.NoteBook.GetUserMetadata | geopyter/core.py:598-649 | a cached value is returned as is; otherwise no cell raises `IndexError`, a first cell without a title raises `AttributeError` and changes nothing, and a titled one sets the cache and replaces the first cell's text by the lines without a key |
| Book.NoteBook.GetLibs | geopyter/core.py:697-749 | a cached table is returned as is; otherwise the result is `LibTable` of the code cells' imports, cached when it is built and left uncached when an import fails; nothing else changes |
| Book.Build | geopyter/core.py:337-346 | building fails exactly when the cells cannot be prepared (no cells, no title, a failing git lookup) or, after that, the library table cannot be built, with that error |
| Book.NoteBook.Read | geopyter/core.py:332-335 | a freshly read notebook holds the file's cells and metadata, with no wrappers, no structure and empty caches |
| Book.Open | geopyter/core.py:337-346 | building succeeds exactly when the specification `Build` does (no cells, no title, a failing git lookup or a failing import each fail it), with the same error otherwise; the cells, metadata, caches and library table are those of `Build`, and `structure` lists each kind's positions |
| Book.WrapCell | geopyter/core.py:338-343 | one pass of the constructor's loop extends the stamped prefix of cells, the kinds and `structure` by cell `i`, and fails exactly when the user metadata cannot be read or the git lookup fails |
| Book.StampCell | geopyter/core.py:340-341 | cell `i`'s `geopyter` namespace becomes a copy of the user metadata with `git` added, and nothing else changes |
| Book.StampIsTwoWrites | geopyter/core.py:340-341 | the two `set_metadata` calls on a cell never fail and leave the user metadata plus `git` in its namespace |
| Book.FileCell | geopyter/core.py:342-343 | the wrapper's kind is appended and the cell's position is appended to its kind's list only |
| Book.Finish | geopyter/core.py:345-346 | without cells it raises `IndexError`; otherwise it fails exactly when `LibTable` does, with its error, and on success the notebook's namespace becomes the user metadata plus `libs`, the cache sees the same `libs` entry, and the library table is cached |
| Book.NestedWrite | geopyter/core.py:345-346 | writing a dict as the namespace and then a name inside it yields the dict with that name added, whatever was there before |
| UserMeta.MetaLineRoundTrip | geopyter/core.py:634 | a line made of a `-`, `*` or digit marker, an optional dot, a space, a key without `:`, `: ` and a value reads back as that key and value |
| UserMeta.MetaLineShape | geopyter/core.py:634 | conversely, a line yields a key and value only when it is a `-`, `*` or digit marker, an optional dot, a space, that key, `: ` and that value; a line without a list marker is never metadata |
| UserMeta.ScanMetadataLines | geopyter/core.py:633-645 | the line loop builds the metadata dict `MetaOf` and the kept text `ContentOf` |
| UserMeta.MetaOfKeys | geopyter/core.py:633-643 | a key is in the user metadata exactly when some line of the first cell carries it |
| UserMeta.MetaOfLastWins | geopyter/core.py:643 | a key's value comes from the last line that carries it |
| UserMeta.ContentLines | geopyter/core.py:644-647 | the new first-cell text splits back into exactly the lines without a key, in order |
| UserMeta.KeptSound | geopyter/core.py:644-645 | every kept line is a line of the cell and carries no key |
| Libs.ImportNameRoundTrip | geopyter/core.py:725-727 | `from` or `import`, a space, a name without blanks, then a blank or the end of the line, yields exactly that name |
| Libs.ImportNameShape | geopyter/core.py:725-727 | conversely, a line yields a name only when it is `from` or `import`, a space, that name, then a blank or the end of the line; with `Libs.ImportNameRoundTrip` this pins the pattern in both directions |
| Libs.ScanLines | geopyter/core.py:724-727 | the line loop collects the names of `NamesInLines` |
| Libs.ScanImports | geopyter/core.py:719-729 | the cell loop collects the names of `ImportNames` |
| Libs.ImportNamesExact | geopyter/core.py:719-729 | a name is collected exactly when some line of some code-kind cell imports it; include and markdown cells are never scanned |
| Libs.LibTable | geopyter/core.py:732-746 | the table fails exactly when some top-level package cannot be imported (the empty name never can), with `ImportError` or `ValueError`; otherwise its keys are exactly the top-level packages, each dot-free and carrying the version found for it |
| Libs.LibsKeys | geopyter/core.py:719-746 | the table fails exactly when some line of some code cell imports a name whose top-level package cannot be imported; otherwise a package is recorded exactly when some line of some code cell imports a name under it |
| Headers.GetHeaderCells | geopyter/core.py:481-503 | the scan over the markdown-kind cells builds the header index `HeaderIndex` |
| Headers.RecordMarkers | geopyter/core.py:498-502 | one cell appends its index to each level's list once per marker of that level |
| Headers.AppendRepeated | geopyter/core.py:501-502 | the match loop appends the index exactly `count` times to one level's list |
| Headers.HeaderIndexExact | geopyter/core.py:482-503 | a cell appears at level N once per level-N marker left after fence removal if it is markdown-kind, and never otherwise; each level's list is ascending and holds cell positions |
| Headers.FencedSpanRemoved | geopyter/core.py:497 | when no backtick precedes the fence and none lies inside it, the closed fence and everything inside it are removed before the scan, so a marker inside it is not counted (otherwise the pattern can pair the fences differently) |
| Spans.SectionStartEnd | geopyter/core.py:161-198 | the loops build the start-keyed span dict `StartEnd` |
| Spans.AppendLevel | geopyter/core.py:180-195 | one level appends one span per entry of its list, in order |
| Spans.SpanEnd | geopyter/core.py:181-193 | the tentative end followed by the `p` loop computes the end of `SpanOf` |
| Spans.SortedDict | geopyter/core.py:197-198 | sorting and then building a dict keeps, for each start, the greatest entry |
| Spans.SpanShape | geopyter/core.py:181-195 | a span starts at its header's cell and ends no earlier and no later than `n_cells`; no same-level header lies in (start, end], and no shallower header strictly between start and end |
| Spans.ShallowerHeaderAtEndKept | geopyter/core.py:181-193 | for any span, a shallower header exactly at the tentative end is not clipped when no shallower header lies strictly inside: the span ends on it and so owns it |
| Spans.ShallowerHeaderAtEndExample | geopyter/core.py:181-193 | the same on a concrete notebook: a level-2 section at cell 0 ending before the level-2 header at 5 owns the level-1 header at 4 |
| Spans.ToDictGreatest | geopyter/core.py:197-198 | each start keeps an entry of the list with that start, and no entry with that start sorts after it |
| Spans.StartEndSound | geopyter/core.py:161-198 | every key of the dict is a header cell, and its entry starts there and is the span of a header at that cell |
| Spans.StartEndComplete | geopyter/core.py:161-198 | every header cell of every level is a key, and the entry kept sorts no earlier than that header's own span |
| Selector.ParseIncludeRoundTrip | geopyter/core.py:101-128 | a four-line directive with `key=path` second and `key=sel1;sel2` third parses back to that path and those selectors |
| Selector.TagsFrom | geopyter/core.py:216-222 | the tag positions are ascending, do not overlap, and each is a case-insensitive `h<digit>.` |
| Selector.TagsFromExact | geopyter/core.py:219-222 | the scan reports every position where a tag starts and no other, since tags cannot overlap |
| Selector.TagStarts | geopyter/core.py:219-222 | the `finditer` loop collects exactly the tag positions |
| Selector.ClausePartition | geopyter/core.py:225-227 | a clause is an exclude exactly when its first character is `-`; every clause is an include or an exclude, and the excludes are the clauses not among the includes |
| Selector.GetCellsContaining | geopyter/core.py:130-159 | the lookup fails exactly when there are no candidates or a candidate is not a cell |
| Selector.CellsContaining | geopyter/core.py:130-159 | the loops compute `GetCellsContaining` |
| Selector.MatchesEmpty | geopyter/core.py:153-156 | there are no matches exactly when no candidate's text contains the pattern |
| Selector.FirstContainingIsFirst | geopyter/core.py:130-159 | `[0]` of the matches is the first candidate, in candidate order, whose text contains the pattern; it fails exactly when there are no candidates, a candidate is not a cell, or nothing matches |
| Selector.AnchorHasSpan | geopyter/core.py:230-234 | the anchor is a header of the level its clause names and a key of the span dict; its entry starts at the anchor and ends no later than `n_cells` |
| Selector.NoTagsFails | geopyter/core.py:219-230 | a selector without a tag has no include clause and fails with `IndexError` |
| Selector.OffsetZeroFails | geopyter/core.py:219-232 | a selector whose first tag is its first character never resolves |
| Selector.ParentRangeMembers | geopyter/core.py:235 | the anchor's range is ascending and holds the span's cells, with the closing cell exactly in the inclusive convention of 438 |
| Selector.ResolveWhole | geopyter/core.py:249-258 | one include clause and no exclude give the ascending parent range |
| Selector.ResolveNarrowed | geopyter/core.py:238-246 | with several include clauses every further clause resolves, the excludes are ignored, and the result is the further clauses' spans laid end to end in clause order, both ends included, with repeats where spans overlap; a cell is in it exactly when it is in one of those spans |
| Selector.ResolveExcluded | geopyter/core.py:248-256 | one include clause with excludes gives the ascending parent range less every cell of every excluded span, both ends included |
| Selector.SectionClosingCell | geopyter/core.py:405-461 | on one include clause and no exclude, `get_section` gives `get_sections`' cells followed by exactly the anchor span's closing cell, also when the span is a single cell and `get_sections` gives none |
| Selector.TermSpansEach | geopyter/core.py:241-244 | the clauses resolve together exactly when each resolves, and the k-th span is the k-th clause's |
| Selector.CoverMembers | geopyter/core.py:245 | the extended ids are exactly the cells of some span, both ends included |
| Selector.WithoutMembers | geopyter/core.py:256 | the filter keeps exactly the range's ids not excluded, in order |
| Selector.FindSpan | geopyter/core.py:242-244 | one further clause is looked up in the anchor's range and then in the span dict |
| Selector.CollectSpans | geopyter/core.py:239-246 | the `extend` loop gives the covered cells of the clauses' spans, or the first clause's error |
| Selector.GetSections | geopyter/core.py:200-258 | the step-by-step resolution gives the specification `Sections`, in either range convention |
| Tree.Below | geopyter/core.py:516 | the filter keeps exactly the candidates before the child |
| Tree.Collected | geopyter/core.py:513-517 | after the `while` loop the gathered ids are exactly the headers of the levels visited that lie before the child |
| Tree.Max | geopyter/core.py:519 | `max` gives a member of the list that is at least every member |
| Tree.GatherCandidates | geopyter/core.py:513-517 | the `while` loop gathers one child's candidates, levels from the one above down to 1 |
| Tree.EdgesOfLevel | geopyter/core.py:509-520 | the child loop, with `parents` carried across children, gives the level's edges or `ValueError` |
| Tree.GetTree | geopyter/core.py:505-521 | the level loop gives `TreeOf` on the notebook's header index |
| Tree.GatheredIsLast | geopyter/core.py:511-519 | over ascending headers, the accumulated `parents` hold exactly the last child's candidates |
| Tree.LevelEdgesNearest | geopyter/core.py:509-520 | a level's edges exist exactly when its first header has a candidate, and edge k joins header k to its nearest shallower predecessor |
| Tree.TreeNearest | geopyter/core.py:505-521 | `get_tree` fails exactly when the first header of some level 2 to 4 has no shallower header before it; otherwise every edge joins a header to its nearest shallower predecessor, and every header of levels 2 to 4 gets such an edge |
| Compose.ComposeCells | geopyter/core.py:751-771 | the loop gives `Composed`: each cell's contribution in turn, or the first error |
| Compose.CellPiece | geopyter/core.py:761-769 | an include cell contributes its expansion and any other cell itself |
| Compose.ExpandInclude | geopyter/core.py:762-767 | an include is parsed, its notebook opened under `atoms/`, and its sections collected |
| Compose.SelectCells | geopyter/core.py:765-767 | the sections' cells are appended in section order, or the first error is raised |
| Compose.FetchSection | geopyter/core.py:766-767 | one section's ids are resolved with the exclusive range and their cells fetched |
| Compose.SectionCellsLength | geopyter/core.py:477-478 | a section contributes one cell per selected id |
| Compose.ComposedNoIncludes | geopyter/core.py:759-771 | without include cells, composing gives back the notebook's own cells |
| Compose.ComposedFails | geopyter/core.py:759-771 | composing fails exactly when some cell's contribution fails |
| Compose.ComposedAt | geopyter/core.py:759-771 | each cell's contribution sits where the cell stood, right after the contributions of the cells before it: the expansion of an include, or the cell itself |
| Compose.SelectedLength | geopyter/core.py:765-767 | an include's cells are as many as the ids its sections select |
| Compose.ComposedLength | geopyter/core.py:759-771 | the output has one cell per non-include cell plus, for each include, one cell per id each of its sections selects |
| Outputs.RemoveOutputs | geopyter/core.py:86-90 | in place, every cell becomes its cleared form |
| Outputs.ClearedAllEffect | geopyter/core.py:86-90 | afterwards no code cell has outputs, every cell keeps its type, text and metadata, and other cells are untouched |
| Outputs.ClearedAllIdempotent | geopyter/core.py:86-90 | clearing twice is clearing once |
| Paths.ReadPath | geopyter/core.py:44-45 | the path read from extends the given one, ends in `.ipynb` when `ext` is set, and is the given path when `ext` is unset or the suffix is there |
| Paths.ReadPathIdempotent | geopyter/core.py:44-45 | applying the rule twice names the same file as applying it once |
| Paths.WritePath | geopyter/core.py:366-371 | the file written always ends in `.ipynb` |
| Paths.WriteBesideSource | geopyter/core.py:366-371 | a notebook opened by its full file name is written beside itself as `<name>-compiled.ipynb`, never over itself |
| Paths.WriteOverwritesSource | geopyter/core.py:366-371 | as written, a notebook opened by its name without the suffix is written back to the file it was read from |
| Paths.WriteOverwritesIntro | geopyter/core.py:366-371 | a concrete case: `intro` is read from and written to `intro.ipynb` |
| Paths.CompiledPathSeparate | geopyter/core.py:366-371 | the corrected default never names the file read from, and agrees with `write` for a given name and for a source opened by its full file name |

## Left out

- File input and output through nbformat are not modelled: the reading in `read_nb`, `clear_notebook`, `dump_nb`, and `compile`'s write. `write` keeps only its path rule. The loader is the parameter `Env.load`, which gives a notebook's cells and metadata or the error the read raised.
- `write` appends a credits cell built by `get_credits`. Neither is modelled. `get_credits` joins an unordered set that may hold ints, and maps lazily under Python 3, so its output is not determined by its input.
- `get_git_metadata` walks the file system and calls gitpython. Its outcome is the parameter `git` (`Env.git`): the metadata, or the error the git library raised, which fails the first cell.
- Book.Build: the git lookup is taken to end. The walk up the directory tree (core.py:675-676) never ends when no directory up to the root holds `.git`, because `dirname` then returns its argument; a parameter cannot express that.
- The version lookup of `get_libs` imports modules. It is the parameter `version`, which gives `None` for a module that cannot be imported. The `except IndexError` around the scan has no counterpart, because nothing in the modelled scan can raise.
- Libs.LibTable: when several imports fail, Python raises for whichever the set yields first. The model reports `ImportError` when any non-empty name fails, and `ValueError` only when the empty name alone fails. The scan really produces names that cannot be imported, such as `os,` from `import os, sys` and the empty name from `from . import x`.
- Metadata.SetMetadata, Book.NoteBook.SetMetadata and Book.NoteBook.SetCellMetadata: `set_metadata(val, namespace=None)` with no name, which stores `val` under the key `None`, is excluded by the precondition. Every call in the source passes a namespace or a name.
- The warnings that `get_cells_containing` and `get_user_metadata` print are not modelled, because output is out of scope.
- The optional `p` and `start_end` arguments of `get_sections` and `get_section` always take their defaults, as `compose` calls them.
- `get_cells_by_type` and the `structure()` accessor are not modelled. Nothing in the core calls them, and the mapping they read is `Cells.Structure`.
- Regular expressions are modelled only for the patterns used, with Python 2's ASCII classes for `\d`, `\w` and `\s`. `str.strip` and `splitlines` use Python 2.7's full sets of white space (Unicode 5.2, so U+180E included) and line breaks.
- Dict and set iteration order is not modelled. The header dict's keys 1 to 4 pop in descending order. The library set only feeds a dict, whose contents do not depend on the order; only the choice of which failing import raises does (see the `Libs.LibTable` line above).
- Python object identity is not modelled beyond the one aliasing that matters: the notebook's `geopyter` namespace and the user-metadata cache. A `Cell` wrapper is its kind plus the cell at its position, so it sees later updates of that cell, as the wrapper's reference to the notebook does.
- Outputs.RemoveOutputs works in place on an array of cells. The notebook object around that list is not modelled.

## Findings

| source | as written | input that shows it | evidently intended | confidence | as-written member | corrected member |
|---|---|---|---|---|---|---|
| geopyter/core.py:366-371 | the default output is the opened path with a final `.ipynb` replaced by `-compiled`, then `.ipynb` appended if missing | `NoteBook("intro")` reads `intro.ipynb` (`read_nb` adds the suffix); `write()` then writes `intro.ipynb`, over the source | the default output is the file read from, with `.ipynb` replaced by `-compiled.ipynb` (`intro-compiled.ipynb`) | medium, not executed | Paths.WriteOverwritesSource | Paths.CompiledPathSeparate |
