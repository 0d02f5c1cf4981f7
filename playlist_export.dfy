/**
 * The export transform of `main` in playlist-export.py: select the playlist
 * nodes of a parsed collection, skip the excluded ones, name one M3U file per
 * playlist and write one resolved track path per line into it.
 */
module PlaylistExport {
  import opened Wrappers
  import opened PyStr
  import opened PosixPath
  import opened ElementTree

  /** `PLAYLISTS/NODE/SUBNODES/NODE[@TYPE="PLAYLIST"]`. */
  const PlaylistPath: seq<Step> := [
    Step("PLAYLISTS", None), Step("NODE", None), Step("SUBNODES", None),
    Step("NODE", Some(AttrTest("TYPE", "PLAYLIST")))]

  /** `PLAYLIST/ENTRY/PRIMARYKEY[@TYPE="TRACK"]`. */
  const TrackPath: seq<Step> := [
    Step("PLAYLIST", None), Step("ENTRY", None),
    Step("PRIMARYKEY", Some(AttrTest("TYPE", "TRACK")))]

  /** Playlists that are never exported. */
  const ExcludedNames: seq<string> := ["_LOOPS", "_RECORDINGS", "Preparation"]

  /** The token that stands for the path separator inside a track key. */
  const EncodedSep: string := "/:"

  /** The old volume name and what it is rewritten to. */
  const LegacyVolume: string := "/Volumes/Gleitzpod"
  const CurrentVolume: string := "/Volumes/RuseVault/Gleitz"

  const Suffix: string := ".m3u"

  /** The exceptions the loop body can raise. */
  datatype Error =
    | NameMissing   // `node.get('NAME')` is None, so `name.replace` raises AttributeError
    | KeyMissing    // `track.get('KEY')` is None, so `.replace` raises AttributeError
    | IndexError    // the decoded key has no character at index 1

  /** The playlist nodes `main` iterates over, in document order. */
  function Playlists(root: Element): seq<Element> {
    IterFind(root, PlaylistPath)
  }

  /** The track references of one playlist node, in document order. */
  function Tracks(node: Element): seq<Element> {
    IterFind(node, TrackPath)
  }

  /** Four elements, each directly inside the one before, with the tags and test of the playlist query. */
  predicate PlaylistPlace(root: Element, folders: Element, folder: Element, subnodes: Element, p: Element) {
    && folders in root.children && folders.tag == "PLAYLISTS"
    && folder in folders.children && folder.tag == "NODE"
    && subnodes in folder.children && subnodes.tag == "SUBNODES"
    && p in subnodes.children && p.tag == "NODE" && Get(p, "TYPE") == Some("PLAYLIST")
  }

  lemma PlaylistChain(root: Element, chain: seq<Element>)
    requires IsChain(root, PlaylistPath, chain)
    ensures PlaylistPlace(root, chain[1], chain[2], chain[3], chain[4])
  {
    assert Matches(chain[1], PlaylistPath[0]) && chain[1] in chain[0].children;
    assert Matches(chain[2], PlaylistPath[1]) && chain[2] in chain[1].children;
    assert Matches(chain[3], PlaylistPath[2]) && chain[3] in chain[2].children;
    assert Matches(chain[4], PlaylistPath[3]) && chain[4] in chain[3].children;
  }

  lemma PlaceChain(root: Element, folders: Element, folder: Element, subnodes: Element, p: Element)
    requires PlaylistPlace(root, folders, folder, subnodes, p)
    ensures IsChain(root, PlaylistPath, [root, folders, folder, subnodes, p])
  {
  }

  /**
   * The playlists exported are exactly the `NODE`s of `TYPE` "PLAYLIST" that
   * sit directly in the `SUBNODES` of a `NODE` directly under `PLAYLISTS`.
   */
  lemma PlaylistSelection(root: Element, p: Element)
    ensures p in Playlists(root) <==>
      exists folders, folder, subnodes :: PlaylistPlace(root, folders, folder, subnodes, p)
  {
    IterFindChains(root, PlaylistPath, p);
    if p in Playlists(root) {
      var chain: seq<Element> :| IsChain(root, PlaylistPath, chain) && chain[4] == p;
      PlaylistChain(root, chain);
    }
    if exists folders, folder, subnodes :: PlaylistPlace(root, folders, folder, subnodes, p) {
      var folders, folder, subnodes :| PlaylistPlace(root, folders, folder, subnodes, p);
      PlaceChain(root, folders, folder, subnodes, p);
    }
  }

  /** Three elements, each directly inside the one before, with the tags and test of the track query. */
  predicate TrackPlace(node: Element, list: Element, entry: Element, t: Element) {
    && list in node.children && list.tag == "PLAYLIST"
    && entry in list.children && entry.tag == "ENTRY"
    && t in entry.children && t.tag == "PRIMARYKEY" && Get(t, "TYPE") == Some("TRACK")
  }

  lemma TrackChain(node: Element, chain: seq<Element>)
    requires IsChain(node, TrackPath, chain)
    ensures TrackPlace(node, chain[1], chain[2], chain[3])
  {
    assert Matches(chain[1], TrackPath[0]) && chain[1] in chain[0].children;
    assert Matches(chain[2], TrackPath[1]) && chain[2] in chain[1].children;
    assert Matches(chain[3], TrackPath[2]) && chain[3] in chain[2].children;
  }

  lemma TrackPlaceChain(node: Element, list: Element, entry: Element, t: Element)
    requires TrackPlace(node, list, entry, t)
    ensures IsChain(node, TrackPath, [node, list, entry, t])
  {
  }

  /**
   * The tracks of a playlist node are exactly the `PRIMARYKEY`s of `TYPE`
   * "TRACK" directly in an `ENTRY` directly in one of its `PLAYLIST` children.
   */
  lemma TrackSelection(node: Element, t: Element)
    ensures t in Tracks(node) <==> exists list, entry :: TrackPlace(node, list, entry, t)
  {
    IterFindChains(node, TrackPath, t);
    if t in Tracks(node) {
      var chain: seq<Element> :| IsChain(node, TrackPath, chain) && chain[3] == t;
      TrackChain(node, chain);
    }
    if exists list, entry :: TrackPlace(node, list, entry, t) {
      var list, entry :| TrackPlace(node, list, entry, t);
      TrackPlaceChain(node, list, entry, t);
    }
  }

  predicate IsExcluded(name: string) {
    name in ExcludedNames
  }

  /** Replace the separator by a dash. */
  function Dash(c: char): char {
    if c == Sep then '-' else c
  }

  /** `name.replace(os.sep, '-').strip() + '.m3u'`. */
  function FileName(name: string): (f: string)
    ensures Sep !in f
    ensures |f| >= |Suffix| && f[|f| - |Suffix|..] == Suffix
    ensures var stem := f[..|f| - |Suffix|];
      stem == [] || (!IsSpace(stem[0]) && !IsSpace(stem[|stem| - 1]))
  {
    var dashed := Replace(name, [Sep], "-");
    ReplaceChar(name, Sep, '-');
    var stem := Strip(dashed);
    assert Sep !in dashed;
    var f := stem + Suffix;
    assert f[..|f| - |Suffix|] == stem;
    f
  }

  /** `stem` is `name[i..j]` with every separator dashed. */
  predicate DashedSlice(name: string, i: nat, j: nat, stem: string) {
    i <= j <= |name| && |stem| == j - i && forall k :: 0 <= k < |stem| ==> stem[k] == Dash(name[i + k])
  }

  /** Dashing the separators does not change which characters `strip()` removes. */
  lemma SurroundsDashed(name: string, dashed: string, i: nat, j: nat)
    requires |dashed| == |name| && forall k :: 0 <= k < |name| ==> dashed[k] == Dash(name[k])
    requires Surrounds(dashed, i, j)
    ensures Surrounds(name, i, j)
  {
    forall k | 0 <= k < |name| && (k < i || j <= k) ensures IsSpace(name[k]) {
      assert dashed[k] == Dash(name[k]);
    }
  }

  /** The file name is the name with every separator dashed and surrounding whitespace trimmed, nothing else. */
  lemma FileNameStem(name: string)
    ensures exists i: nat, j: nat :: Surrounds(name, i, j) && DashedSlice(name, i, j, FileName(name)[..|FileName(name)| - |Suffix|])
  {
    var dashed := Replace(name, [Sep], "-");
    ReplaceChar(name, Sep, '-');
    var stem := Strip(dashed);
    assert FileName(name)[..|FileName(name)| - |Suffix|] == stem;
    var i: nat, j: nat :| Surrounds(dashed, i, j) && stem == dashed[i..j];
    SurroundsDashed(name, dashed, i, j);
    assert DashedSlice(name, i, j, stem);
  }

  /** Names that agree once separators are dashed get the same file name, so their playlists share a file. */
  lemma FileNameDashEquivalent(name1: string, name2: string)
    requires |name1| == |name2| && forall k :: 0 <= k < |name1| ==> Dash(name1[k]) == Dash(name2[k])
    ensures FileName(name1) == FileName(name2)
  {
    ReplaceChar(name1, Sep, '-');
    ReplaceChar(name2, Sep, '-');
    assert Replace(name1, [Sep], "-") == Replace(name2, [Sep], "-");
  }

  /** `os.path.join(outputPath, FileName(name))`. */
  function OutputFile(outputPath: string, name: string): string {
    Join(outputPath, [FileName(name)])
  }

  /** Output files of two playlists coincide exactly when their file names do. */
  lemma OutputFileCollision(outputPath: string, name1: string, name2: string)
    ensures OutputFile(outputPath, name1) == OutputFile(outputPath, name2) <==> FileName(name1) == FileName(name2)
  {
    var f1, f2 := FileName(name1), FileName(name2);
    assert !IsAbsolute(f1) by { assert f1[0] in f1; }
    assert !IsAbsolute(f2) by { assert f2[0] in f2; }
    JoinRelativeInjective(outputPath, f1, f2);
  }

  /** The output file always lies in the output folder. */
  lemma OutputFileInFolder(outputPath: string, name: string)
    ensures outputPath <= OutputFile(outputPath, name)
  {
    var f := FileName(name);
    assert !IsAbsolute(f) by { assert f[0] in f; }
    JoinKeepsBase(outputPath, [f]);
  }

  /** `key.replace('/:', os.sep)`. */
  function Decode(key: string): string {
    Replace(key, EncodedSep, [Sep])
  }

  /** `path.replace('/Volumes/Gleitzpod', '/Volumes/RuseVault/Gleitz')`. */
  function Rewrite(path: string): string {
    Replace(path, LegacyVolume, CurrentVolume)
  }

  /**
   * The path written for a track key: decode, keep a drive-letter path as it
   * is and join anything else under `/Volumes`, then rewrite the old volume.
   */
  function Resolve(key: string): (r: Result<string, Error>)
    ensures r.Failure? <==> |Decode(key)| < 2
    ensures r.Failure? ==> r.error == IndexError
  {
    var decoded := Decode(key);
    if |decoded| < 2 then Failure(IndexError)
    else
      var path := if decoded[1] == ':' then decoded else Join([Sep], ["Volumes", decoded]);
      Success(Rewrite(path))
  }

  /** The body of the inner loop for one `PRIMARYKEY` element. */
  function ResolveTrack(track: Element): Result<string, Error> {
    match Get(track, "KEY")
    case None => Failure(KeyMissing)
    case Some(key) => Resolve(key)
  }

  /** A key without the `/:` token decodes to itself. */
  lemma DecodeWithoutToken(key: string)
    requires !Contains(key, EncodedSep)
    ensures Decode(key) == key
  {
    ReplaceWithoutMatch(key, EncodedSep, [Sep]);
  }

  /** A path that does not mention the old volume is not rewritten. */
  lemma RewriteWithoutLegacy(path: string)
    requires !Contains(path, LegacyVolume)
    ensures Rewrite(path) == path
  {
    ReplaceWithoutMatch(path, LegacyVolume, CurrentVolume);
  }

  /** Rewriting replaces every leftmost non-overlapping occurrence of the old volume, wherever it is. */
  lemma RewriteEveryOccurrence(path: string)
    ensures Rewrite(path) == JoinWith(CurrentVolume, Split(path, LegacyVolume))
  {
    ReplaceIsSplitJoin(path, LegacyVolume, CurrentVolume);
  }

  /** Decoding a key joins its pieces between the `/:` tokens with the separator. */
  lemma DecodeSplit(key: string, parts: seq<string>)
    requires IsSplitOf(key, EncodedSep, parts)
    ensures Decode(key) == JoinWith([Sep], parts)
  {
    ReplaceIsSplitJoin(key, EncodedSep, [Sep]);
    SplitUnique(key, EncodedSep, parts);
  }

  /** A key too short to have a character at index 1 fails, since decoding never lengthens it. */
  lemma ResolveShortKey(key: string)
    requires |key| < 2
    ensures Resolve(key) == Failure(IndexError)
  {
    ReplaceShrinks(key, EncodedSep, [Sep]);
  }

  /** A decoded key with a colon at index 1 (a drive letter) is kept as it is before the rewrite. */
  lemma ResolveDriveLetter(key: string)
    requires |Decode(key)| >= 2 && Decode(key)[1] == ':'
    ensures Resolve(key) == Success(Rewrite(Decode(key)))
  {
  }

  /** Any other decoded key is joined under `/Volumes`, unless it is already absolute. */
  lemma ResolveUnderVolumes(key: string)
    requires |Decode(key)| >= 2 && Decode(key)[1] != ':'
    ensures Resolve(key) == Success(Rewrite(if IsAbsolute(Decode(key)) then Decode(key) else "/Volumes/" + Decode(key)))
  {
    var d := Decode(key);
    assert Join2([Sep], "Volumes") == "/Volumes";
    if IsAbsolute(d) {
      JoinRestartsAtAbsolute([Sep], ["Volumes", d], 1);
    } else {
      assert ["Volumes", d][1..] == [d];
      assert Join("/Volumes", [d]) == Join2("/Volumes", d);
      assert Join2("/Volumes", d) == "/Volumes/" + d;
    }
  }

  /** A path starting with the old volume, with no other occurrence, gets the new volume and keeps its remainder. */
  lemma RewriteLegacyPrefix(rest: string)
    requires !Contains(rest, LegacyVolume)
    ensures Rewrite(LegacyVolume + rest) == CurrentVolume + rest
  {
    var p := LegacyVolume + rest;
    assert p[..|LegacyVolume|] == LegacyVolume;
    assert p[|LegacyVolume|..] == rest;
    ReplaceWithoutMatch(rest, LegacyVolume, CurrentVolume);
  }

  /** What the inner loop has written and whether it stopped with an exception. */
  datatype Written = Written(text: string, error: Option<Error>)

  /** The output files and whether the run stopped with an exception. */
  datatype Run = Run(files: map<string, string>, error: Option<Error>)

  /** What resolving each track gives, in document order. */
  function Outcomes(ts: seq<Element>): seq<Result<string, Error>> {
    seq(|ts|, i requires 0 <= i < |ts| => ResolveTrack(ts[i]))
  }

  /** What the inner loop writes for the outcomes `rs`: one line per path until the first failure. */
  function WriteLines(rs: seq<Result<string, Error>>): Written
    decreases |rs|
  {
    if rs == [] then Written("", None)
    else
      var w := WriteLines(rs[..|rs| - 1]);
      if w.error.Some? then w
      else match rs[|rs| - 1]
        case Failure(e) => Written(w.text, Some(e))
        case Success(p) => Written(w.text + p + "\n", None)
  }

  /** What the inner loop writes for the tracks `ts`. */
  function WriteTracks(ts: seq<Element>): Written {
    WriteLines(Outcomes(ts))
  }

  /** What one playlist node makes the outer loop do. */
  datatype Action =
    | Raise(error: Error)                   // the node has no `NAME`
    | Skip                                  // the playlist is excluded
    | Write(file: string, written: Written) // the file and what the inner loop writes into it

  /** The body of the outer loop for one playlist node. */
  function PlaylistAction(outputPath: string, node: Element): Action {
    match Get(node, "NAME")
    case None => Raise(NameMissing)
    case Some(name) =>
      if IsExcluded(name) then Skip else Write(OutputFile(outputPath, name), WriteTracks(Tracks(node)))
  }

  /** The actions of the playlist nodes, in document order. */
  function Actions(outputPath: string, nodes: seq<Element>): seq<Action> {
    seq(|nodes|, i requires 0 <= i < |nodes| => PlaylistAction(outputPath, nodes[i]))
  }

  /** Carry out one action on the files written so far; a failing inner loop leaves its partial file. */
  function Apply(files: map<string, string>, a: Action): Run {
    match a
    case Raise(e) => Run(files, Some(e))
    case Skip => Run(files, None)
    case Write(f, w) => Run(files[f := w.text], w.error)
  }

  /** The outer loop over the actions `acts`, stopping at the first exception. */
  function RunActions(files: map<string, string>, acts: seq<Action>): Run
    decreases |acts|
  {
    if acts == [] then Run(files, None)
    else
      var r := RunActions(files, acts[..|acts| - 1]);
      if r.error.Some? then r else Apply(r.files, acts[|acts| - 1])
  }

  /** The outer loop over the playlist nodes `nodes`. */
  function ExportRun(files: map<string, string>, outputPath: string, nodes: seq<Element>): Run {
    RunActions(files, Actions(outputPath, nodes))
  }

  /** The inner loop's next iteration. */
  lemma WriteLinesStep(rs: seq<Result<string, Error>>, j: nat)
    requires j < |rs|
    ensures WriteLines(rs[..j + 1]) ==
      var w := WriteLines(rs[..j]);
      if w.error.Some? then w
      else match rs[j]
        case Failure(e) => Written(w.text, Some(e))
        case Success(p) => Written(w.text + p + "\n", None)
  {
    assert rs[..j + 1][..j] == rs[..j];
  }

  /** The outer loop's next iteration. */
  lemma RunActionsStep(files: map<string, string>, acts: seq<Action>, i: nat)
    requires i < |acts|
    ensures RunActions(files, acts[..i + 1]) ==
      var r := RunActions(files, acts[..i]);
      if r.error.Some? then r else Apply(r.files, acts[i])
  {
    assert acts[..i + 1][..i] == acts[..i];
  }

  /** Once the inner loop has raised, later tracks change nothing. */
  lemma {:induction false} WriteLinesStops(rs: seq<Result<string, Error>>, j: nat)
    requires j <= |rs| && WriteLines(rs[..j]).error.Some?
    ensures WriteLines(rs) == WriteLines(rs[..j])
    decreases |rs| - j
  {
    if j < |rs| {
      assert rs[..j + 1][..j] == rs[..j];
      WriteLinesStops(rs, j + 1);
    } else {
      assert rs[..j] == rs;
    }
  }

  /** Once the outer loop has raised, later playlists change nothing. */
  lemma {:induction false} RunActionsStops(files: map<string, string>, acts: seq<Action>, i: nat)
    requires i <= |acts| && RunActions(files, acts[..i]).error.Some?
    ensures RunActions(files, acts) == RunActions(files, acts[..i])
    decreases |acts| - i
  {
    if i < |acts| {
      assert acts[..i + 1][..i] == acts[..i];
      RunActionsStops(files, acts, i + 1);
    } else {
      assert acts[..i] == acts;
    }
  }

  /**
   * The `with open(outputFile, 'w')` block: empty the file, then append one
   * resolved path and a newline per track, stopping at the first exception
   * with what was written so far left in the file.
   */
  method WritePlaylist(before: map<string, string>, file: string, tracks: seq<Element>)
    returns (files: map<string, string>, error: Option<Error>)
    ensures files == before[file := WriteTracks(tracks).text]
    ensures error == WriteTracks(tracks).error
  {
    ghost var rs := Outcomes(tracks);
    files := before[file := ""];
    var j := 0;
    while j < |tracks|
      invariant 0 <= j <= |tracks|
      invariant file in files
      invariant WriteLines(rs[..j]) == Written(files[file], None)
      invariant files == before[file := files[file]]
    {
      WriteLinesStep(rs, j);
      assert rs[j] == ResolveTrack(tracks[j]);
      match ResolveTrack(tracks[j]) {
        case Failure(e) =>
          WriteLinesStops(rs, j + 1);
          return files, Some(e);
        case Success(path) =>
          files := files[file := files[file] + path + "\n"];
      }
      j := j + 1;
    }
    assert rs[..j] == rs;
    error := None;
  }

  /**
   * The export loop of `main` over the selected playlist nodes: for each one
   * that is not excluded, write its file. `before` is the content of the file
   * system before the run; on an exception the files written so far stay.
   */
  method ExportPlaylists(nodes: seq<Element>, outputPath: string, before: map<string, string>)
    returns (files: map<string, string>, error: Option<Error>)
    ensures Run(files, error) == ExportRun(before, outputPath, nodes)
  {
    ghost var acts := Actions(outputPath, nodes);
    files, error := before, None;
    var i := 0;
    while i < |nodes|
      invariant 0 <= i <= |nodes|
      invariant RunActions(before, acts[..i]) == Run(files, error) && error.None?
    {
      var node := nodes[i];
      assert acts[i] == PlaylistAction(outputPath, node);
      RunActionsStep(before, acts, i);
      if "NAME" !in node.attrs {
        RunActionsStops(before, acts, i + 1);
        return files, Some(NameMissing);
      }
      var name := node.attrs["NAME"];
      if !IsExcluded(name) {
        files, error := WritePlaylist(files, OutputFile(outputPath, name), Tracks(node));
        if error.Some? {
          RunActionsStops(before, acts, i + 1);
          return;
        }
      }
      i := i + 1;
    }
    assert acts[..i] == acts;
  }

  /** Lines 97-111 of `main`: export every playlist the query selects. */
  method Export(root: Element, outputPath: string, before: map<string, string>)
    returns (files: map<string, string>, error: Option<Error>)
    ensures Run(files, error) == ExportRun(before, outputPath, Playlists(root))
  {
    files, error := ExportPlaylists(Playlists(root), outputPath, before);
  }
}
