# Traktor playlist export, modelled in Dafny

`playlist-export.py` turns a parsed Traktor collection (`collection.nml`) into one
M3U file per playlist. The body of `main` walks the playlist nodes of the tree,
skips three reserved playlists (`_LOOPS`, `_RECORDINGS`, `Preparation`), makes a
file name from the playlist's `NAME`, and writes into that file one resolved
path per track reference. A track's `KEY` (Traktor's volume-and-path string, with
`/:` standing for the path separator) is decoded, joined under `/Volumes`
unless it starts with a drive letter, and moved from the old `Gleitzpod` volume
to `RuseVault/Gleitz`.

The model has these modules:

- `Wrappers` (`wrappers.dfy`) holds `Option` and `Result`.
- `PyStr` (`pystr.dfy`) models the two Python string methods the exporter calls:
  `str.replace` (leftmost and non-overlapping, as a recursive function) and
  `str.strip` (with Python's whitespace set). It also defines `str.find`,
  `str.split` and `str.join`, which the exporter does not call. They serve as
  reference definitions that pin down `replace`
  (`s.replace(t, r) == r.join(s.split(t))`).
- `PosixPath` (`posixpath.dfy`) models `os.path.join` under its POSIX rule: an
  absolute part throws away everything before it, and otherwise one `/` is added
  unless the path so far is empty or already ends in `/`.
- `ElementTree` (`element_tree.dfy`) models the element tree and
  `Element.iterfind` for paths made of child steps, each with an optional
  `[@name="value"]` test. `Select` follows ElementPath's stage-by-stage
  evaluation. It is proved equal to a child-by-child reference definition
  (`Descend`), and its results are characterised by chains of elements.
- `PlaylistExport` (`playlist_export.dfy`) models the export itself:
  - selection, exclusion, file names and key resolution, as functions;
  - the two nested loops, as the methods `WritePlaylist` (the `with open(...)`
    block) and `ExportPlaylists`/`Export` (the loop over playlists).

  The file system is a `map` from output path to content. The methods update it
  and are proved equal to the specification functions `WriteTracks` and
  `ExportRun`. Each loop body raises an exception in Python when a node has no
  `NAME`, a track has no `KEY`, or a decoded key is shorter than two
  characters. The model makes these `Error` values, and the loops stop on them
  just as the program does, leaving the files written so far (and the partial
  current file) in place.
- `ExportProperties` (`export_properties.dfy`) holds what the export promises,
  proved over the specification functions:
  - which files exist after a run;
  - that files no playlist writes are untouched;
  - last write wins, with the exact M3U text in document order;
  - that reading the text back line by line gives the paths;
  - worked examples of key resolution, including one showing that resolution is
    not idempotent.

The path separator is the constant `/` (`PosixPath.Sep`): `/Volumes` places the
tool on macOS.

## Model

| member | source | states |
|---|---|---|
| `ElementTree.Get` | playlist-export.py:98 | `e.get(name)`: the attribute's value, or `None` when it is absent; its uses are characterised by `PlaylistSelection`, `ResolveTrack` and `ActionWrites` |
| `ElementTree.Filter` | playlist-export.py:97 | one child step keeps exactly the children that have the step's tag and pass its attribute test, and never more than it was given |
| `ElementTree.FilterSingleton` | playlist-export.py:97 | one element is kept exactly when it matches the step |
| `ElementTree.FilterAppend` | playlist-export.py:97 | filtering a concatenation concatenates the filtered parts; with `FilterSingleton`, the matching children keep their document order and multiplicity |
| `ElementTree.Select` | playlist-export.py:97-106 | ElementPath's stage-by-stage evaluation of a child-step path; `SelectIsDescend` and `IterFindChains` state what it returns |
| `ElementTree.IterFind` | playlist-export.py:97-106 | `e.iterfind(path)` is `Select` from the one-element context `[e]`; `IterFindChains` characterises its members |
| `ElementTree.SelectIsDescend` | playlist-export.py:97 | ElementPath's stage-by-stage evaluation equals the element-by-element reference walk, so matches come out in document order |
| `ElementTree.IterFindChains` | playlist-export.py:97 | an element is found by `iterfind(path)` exactly when a chain of parent-to-child links, one per step, each matching its step, leads to it |
| `PlaylistExport.PlaylistSelection` | playlist-export.py:97 | the loop visits exactly the `NODE`s with `TYPE` "PLAYLIST" lying directly in the `SUBNODES` of a `NODE` directly under the root's `PLAYLISTS`; nothing nested deeper |
| `PlaylistExport.TrackSelection` | playlist-export.py:106 | the tracks of a playlist are exactly its `PLAYLIST/ENTRY/PRIMARYKEY` grandchildren with `TYPE` "TRACK"; keys of other types are skipped |
| `PyStr.ReplaceChar` | playlist-export.py:102 | replacing one character by another keeps the length and maps each character on its own |
| `PyStr.Strip` | playlist-export.py:102 | `strip()` returns a slice of its input with only whitespace outside it, and the slice starts and ends with non-whitespace or is empty |
| `PyStr.StripExact` | playlist-export.py:102 | the slice `strip()` returns is the only one with those properties |
| `PlaylistExport.IsExcluded` | playlist-export.py:99-100 | the playlists skipped are `_LOOPS`, `_RECORDINGS` and `Preparation`, compared as whole strings; `ExportFileSet` shows that they produce no file |
| `PlaylistExport.PlaylistAction` | playlist-export.py:98-105 | one pass of the playlist loop: raise for a missing `NAME`, skip an excluded name, otherwise write the track loop's text to the output file; `ActionWrites` states it |
| `PlaylistExport.OutputFile` | playlist-export.py:102 | the output path `os.path.join(outputPath, FileName(name))`; `OutputFileInFolder` and `OutputFileCollision` state its properties |
| `PyStr.Replace` | playlist-export.py:102-109 | `str.replace` with a non-empty pattern; `ReplaceChar`, `ReplaceIsSplitJoin`, `ReplaceWithoutMatch` and `ReplaceShrinks` state what it returns |
| `PosixPath.Join` | playlist-export.py:102-108 | `posixpath.join`; `JoinRestartsAtAbsolute`, `JoinKeepsBase` and `JoinRelativeInjective` state what it returns |
| `PlaylistExport.FileName` | playlist-export.py:102 | the file name holds no separator, ends in `.m3u`, and its stem neither starts nor ends with whitespace |
| `PlaylistExport.FileNameStem` | playlist-export.py:102 | the stem is the name with only surrounding whitespace dropped and every separator turned into `-` |
| `PlaylistExport.FileNameDashEquivalent` | playlist-export.py:102 | names that agree once separators are dashed get the same file name |
| `PlaylistExport.OutputFileCollision` | playlist-export.py:102 | the output path strings of two playlists coincide exactly when their file names are equal |
| `PlaylistExport.OutputFileInFolder` | playlist-export.py:102 | every output file path extends the output folder path |
| `PosixPath.JoinRestartsAtAbsolute` | playlist-export.py:108 | `os.path.join` starts again from any absolute part and discards what came before it |
| `PosixPath.JoinKeepsBase` | playlist-export.py:102 | joining relative parts only extends the base path |
| `PosixPath.JoinRelativeInjective` | playlist-export.py:102 | joining one relative name to a base is injective in the name |
| `PyStr.Find` | playlist-export.py:107 | the scan finds the leftmost occurrence, and finds none exactly when there is none |
| `PyStr.SplitIsSplit` | playlist-export.py:107 | `split` cuts at the leftmost non-overlapping occurrences: the pieces join back to the input and no piece but at a cut holds the separator |
| `PyStr.SplitUnique` | playlist-export.py:107 | any pieces with those properties are the ones `split` returns |
| `PyStr.ReplaceIsSplitJoin` | playlist-export.py:107 | `replace` gives the same string as splitting at the pattern and joining with the replacement |
| `PyStr.ReplaceWithoutMatch` | playlist-export.py:107 | `replace` is the identity on a string without the pattern |
| `PyStr.ReplaceShrinks` | playlist-export.py:107 | `replace` with a replacement no longer than the pattern never lengthens the string |
| `PlaylistExport.Decode` | playlist-export.py:107 | `key.replace('/:', os.sep)`; `DecodeWithoutToken` and `DecodeSplit` state what it returns |
| `PlaylistExport.DecodeWithoutToken` | playlist-export.py:107 | a key without `/:` decodes to itself |
| `PlaylistExport.DecodeSplit` | playlist-export.py:107 | decoding joins, with the separator, the pieces left between the leftmost non-overlapping `/:` tokens |
| `PlaylistExport.Resolve` | playlist-export.py:107-109 | resolution fails, with an index error, exactly when the decoded key has fewer than two characters |
| `PlaylistExport.ResolveTrack` | playlist-export.py:107-109 | a track without `KEY` fails with `KeyMissing` (where Python raises on `None.replace`), otherwise the track's key is resolved; `WriteTracksSpec` states its use |
| `PlaylistExport.ResolveShortKey` | playlist-export.py:108 | a key of fewer than two characters always fails with an index error |
| `PlaylistExport.ResolveDriveLetter` | playlist-export.py:108 | a decoded key with `:` at index 1 is kept as decoded before the rewrite |
| `PlaylistExport.ResolveUnderVolumes` | playlist-export.py:108 | any other decoded key becomes `/Volumes/` followed by it, or stays itself when it is already absolute |
| `PlaylistExport.Rewrite` | playlist-export.py:109 | `path.replace('/Volumes/Gleitzpod', '/Volumes/RuseVault/Gleitz')`; `RewriteWithoutLegacy`, `RewriteEveryOccurrence` and `RewriteLegacyPrefix` state what it returns |
| `PlaylistExport.RewriteWithoutLegacy` | playlist-export.py:109 | a path that does not mention `/Volumes/Gleitzpod` is unchanged |
| `PlaylistExport.RewriteEveryOccurrence` | playlist-export.py:109 | every leftmost non-overlapping occurrence of the old volume is replaced, wherever it is in the path |
| `PlaylistExport.RewriteLegacyPrefix` | playlist-export.py:109 | a path on the old volume moves to the new one and keeps the rest of the path, when that rest does not mention the old volume again |
| `PlaylistExport.WriteLinesStops` | playlist-export.py:106-111 | once a track raises, later tracks add nothing to the file |
| `PlaylistExport.RunActionsStops` | playlist-export.py:97-111 | once a playlist raises, later playlists write nothing |
| `PlaylistExport.WritePlaylist` | playlist-export.py:105-111 | the `with open(file, 'w')` block replaces the file's content with what the track loop writes, changes no other file and raises what that loop raises |
| `PlaylistExport.ExportPlaylists` | playlist-export.py:97-111 | the loop over the playlist nodes leaves the files and the exception given by the specification of the run |
| `PlaylistExport.Export` | playlist-export.py:97-111 | the export of a whole collection is that run over the selected playlists |
| `ExportProperties.WriteLinesSpec` | playlist-export.py:106-111 | the track loop writes `path + "\n"` for each track up to the first failing one, in order, and then raises that track's error |
| `ExportProperties.WriteTracksSpec` | playlist-export.py:106-111 | the same for the tracks of a playlist: every track before the first failure resolves, and the failing one is the exception |
| `ExportProperties.WriteTracksComplete` | playlist-export.py:106-111 | a track loop that raised nothing resolved every track and wrote exactly one line per track |
| `ExportProperties.LinesAppend` | playlist-export.py:111 | writing one more line appends the path and a newline to the text |
| `ExportProperties.LinesSplit` | playlist-export.py:111 | splitting an M3U text at newlines gives back its paths, followed by one empty piece, when no path holds a newline |
| `ExportProperties.RunFileSet` | playlist-export.py:97-105 | in a run without an exception, a file exists exactly when it existed before or some action of the run writes it |
| `ExportProperties.RunUntouched` | playlist-export.py:97-105 | a file no action writes is left as it was, whether or not the run raised |
| `ExportProperties.RunLastWriteWins` | playlist-export.py:102-111 | in a run without an exception, a file holds what its last writer wrote |
| `ExportProperties.ActionWrites` | playlist-export.py:98-105 | a playlist's action writes a file exactly when the playlist has a name that is not excluded and whose output file is that file, and it writes what the track loop writes |
| `ExportProperties.ExportFileSet` | playlist-export.py:98-105 | in a run without an exception, the files are those there before plus exactly one per visited playlist that is not `_LOOPS`, `_RECORDINGS` or `Preparation` |
| `ExportProperties.ExportUntouched` | playlist-export.py:97-105 | a file that no visited playlist is written to keeps its old content, whether or not the run raised |
| `ExportProperties.ExportLastWriteWins` | playlist-export.py:102-111 | in a run without an exception, each file holds the lines of the last playlist written to it: one resolved path and a newline per track, in document order, every track having resolved |
| `ExportProperties.ResolveVolumeExample` | playlist-export.py:107-109 | `Music/:a.mp3` resolves to `/Volumes/Music/a.mp3` |
| `ExportProperties.ResolveDriveExample` | playlist-export.py:107-109 | `C:/:a.mp3` resolves to `C:/a.mp3` |
| `ExportProperties.ResolveLegacyExample` | playlist-export.py:107-109 | `Gleitzpod/:a.mp3` resolves to `/Volumes/RuseVault/Gleitz/a.mp3` |
| `ExportProperties.ResolveNotIdempotent` | playlist-export.py:107-109 | `C:/::x` resolves to `C:/:x`, and resolving that again gives `C:/x` |
| `ExportProperties.FileNameCollisionExample` | playlist-export.py:102 | the playlists `A/B` and `A-B` get the same file name, so they are written to the same output path |

## Left out

- Locating and parsing the collection (`_getParsedTraktorCollection`, playlist-export.py:12-42), which lists folders, expands `~` and calls `ET.parse`. These are file system access and a foreign library, so the model takes the parsed root `Element` as its input.
- Command-line handling (`get_parser`, `command_line_runner`, playlist-export.py:49-68, 79-85): argument parsing only.
- The `rsync` upload (playlist-export.py:71-76) and emptying or creating the output folder with `trash`/`mkdir` (playlist-export.py:89-93). These are shell and file system side effects. The `before` map of `Export` stands for the folder as it is after that step.
- `print` logging (playlist-export.py:40, 75, 104): output only.
- The empty stub `getPlaylists` (playlist-export.py:45-46): it has no behaviour.
- Failures of `open` or `write` themselves (a missing folder, permissions, a full disk, text encoding): these are operating-system I/O. A written file is modelled as the string of text put into it.
- ElementPath beyond child steps with `[@name="value"]` tests (`//`, `*`, `..`, positions, text tests). The query strings are not parsed; `PlaylistPath` and `TrackPath` are the two queries written as steps. Element text, tails and namespaces are not modelled either, because the exporter reads only tags, attributes and children.
- `os.sep` on Windows: the separator is `/`, so the drive-letter branch is modelled with that separator.
- `str.replace` with an empty pattern: the exporter only ever replaces non-empty constants.
- Resolution is not idempotent: `C:/::x` resolves to `C:/:x`, which resolves to `C:/x` (`ResolveNotIdempotent`). The model claims no idempotence.
- When `NAME` or `KEY` is missing, Python raises `AttributeError` on `None.replace`. The model does not forbid this case: it is the error path `NameMissing` or `KeyMissing`, which ends the run like that exception.
- OutputFileCollision, ExportFileSet, ExportLastWriteWins: files are told apart by their exact path string (the file system is a `map<string, string>`). Case-insensitive or normalisation-insensitive volumes, the macOS default, are not modelled. On such a volume, `House` and `house` open the same file, and the later playlist overwrites the earlier one, where the model keeps two files.
